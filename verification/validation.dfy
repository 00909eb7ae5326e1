/** The input check of `_load_user_content`: the data file must exist, be non-empty, and
    start with a Markdown heading marker once surrounding whitespace is stripped. */
module Validation {
  import opened Wrappers

  /** Python's `str.isspace` on one character: the characters `str.strip()` removes. */
  predicate IsSpace(c: char)
  {
    || ('\t' <= c <= '\r')
    || ('\U{1c}' <= c <= ' ')
    || c == '\U{85}' || c == '\U{a0}' || c == '\U{1680}'
    || ('\U{2000}' <= c <= '\U{200a}')
    || c == '\U{2028}' || c == '\U{2029}' || c == '\U{202f}' || c == '\U{205f}' || c == '\U{3000}'
  }

  /** `s` with its leading whitespace removed. */
  function TrimLeft(s: string): (r: string)
    ensures |r| <= |s| && r == s[|s| - |r|..]
    ensures forall j :: 0 <= j < |s| - |r| ==> IsSpace(s[j])
    ensures r == [] || !IsSpace(r[0])
  {
    if |s| > 0 && IsSpace(s[0]) then TrimLeft(s[1..]) else s
  }

  /** `s` with its trailing whitespace removed. */
  function TrimRight(s: string): (r: string)
    ensures |r| <= |s| && r == s[..|r|]
    ensures forall j :: |r| <= j < |s| ==> IsSpace(s[j])
    ensures r == [] || !IsSpace(r[|r| - 1])
  {
    if |s| > 0 && IsSpace(s[|s| - 1]) then TrimRight(s[..|s| - 1]) else s
  }

  /** Python's `s.strip()` with no argument. */
  function Strip(s: string): string
  {
    TrimRight(TrimLeft(s))
  }

  predicate StartsWith(s: string, prefix: string)
  {
    |prefix| <= |s| && s[..|prefix|] == prefix
  }

  /** The format check `content.strip().startswith("#")`. */
  predicate HasHeading(content: string)
  {
    StartsWith(Strip(content), "#")
  }

  /** The first character of the content that is not whitespace exists and is `#`. */
  ghost predicate FirstVisibleIsHash(content: string)
  {
    exists i :: 0 <= i < |content| && content[i] == '#' && forall j :: 0 <= j < i ==> IsSpace(content[j])
  }

  /** The stripped text starts with `#` exactly when the first non-whitespace character of
      the text is `#`: trailing whitespace and the right-hand strip play no part. */
  lemma HasHeadingIff(content: string)
    ensures HasHeading(content) <==> FirstVisibleIsHash(content)
  {
    if HasHeading(content) {
      HeadingIsFirstVisible(content);
    }
    if FirstVisibleIsHash(content) {
      FirstVisibleIsHeading(content);
    }
  }

  lemma HeadingIsFirstVisible(content: string)
    requires HasHeading(content)
    ensures FirstVisibleIsHash(content)
  {
    var t := TrimLeft(content);
    var n := |content| - |t|;
    var r := TrimRight(t);
    assert r[0] == '#' && t[0] == '#';
    assert content[n] == '#';
    assert forall j :: 0 <= j < n ==> IsSpace(content[j]);
  }

  lemma FirstVisibleIsHeading(content: string)
    requires FirstVisibleIsHash(content)
    ensures HasHeading(content)
  {
    var t := TrimLeft(content);
    var n := |content| - |t|;
    var i :| 0 <= i < |content| && content[i] == '#' && forall j :: 0 <= j < i ==> IsSpace(content[j]);
    assert !IsSpace(content[i]);
    assert i >= n;
    assert t != [];
    assert !IsSpace(content[n]);
    assert n >= i;
    FirstKeptByTrimRight(t);
  }

  /** Right-stripping keeps the first character when it is not whitespace. */
  lemma FirstKeptByTrimRight(t: string)
    requires t != [] && !IsSpace(t[0])
    ensures TrimRight(t) != [] && TrimRight(t)[0] == t[0]
  {
  }

  lemma {:induction false} TrimLeftPadding(pad: string, s: string)
    requires forall j :: 0 <= j < |pad| ==> IsSpace(pad[j])
    ensures TrimLeft(pad + s) == TrimLeft(s)
    decreases |pad|
  {
    if |pad| > 0 {
      assert (pad + s)[1..] == pad[1..] + s;
      TrimLeftPadding(pad[1..], s);
    } else {
      assert pad + s == s;
    }
  }

  lemma {:induction false} TrimRightPadding(s: string, pad: string)
    requires forall j :: 0 <= j < |pad| ==> IsSpace(pad[j])
    ensures TrimRight(s + pad) == TrimRight(s)
    decreases |pad|
  {
    if |pad| > 0 {
      assert (s + pad)[..|s + pad| - 1] == s + pad[..|pad| - 1];
      TrimRightPadding(s, pad[..|pad| - 1]);
    } else {
      assert s + pad == s;
    }
  }

  lemma TrimLeftAllSpace(x: string)
    requires forall j :: 0 <= j < |x| ==> IsSpace(x[j])
    ensures TrimLeft(x) == []
  {
  }

  lemma TrimLeftKeeps(x: string)
    requires x != [] && !IsSpace(x[0])
    ensures TrimLeft(x) == x
  {
  }

  lemma StripTrailingPadding(s: string, after: string)
    requires forall j :: 0 <= j < |after| ==> IsSpace(after[j])
    ensures Strip(s + after) == Strip(s)
  {
    var t := TrimLeft(s);
    var n := |s| - |t|;
    assert s + after == s[..n] + (t + after);
    TrimLeftPadding(s[..n], t + after);
    if t == [] {
      assert t + after == after;
      TrimLeftAllSpace(after);
    } else {
      TrimLeftKeeps(t + after);
      TrimRightPadding(t, after);
    }
  }

  /** Whitespace around a text does not change what `strip()` returns. */
  lemma StripIgnoresPadding(before: string, s: string, after: string)
    requires forall j :: 0 <= j < |before| ==> IsSpace(before[j])
    requires forall j :: 0 <= j < |after| ==> IsSpace(after[j])
    ensures Strip(before + s + after) == Strip(s)
  {
    assert before + s + after == before + (s + after);
    TrimLeftPadding(before, s + after);
    StripTrailingPadding(s, after);
  }

  /** Where the source reads its input document, relative to the working directory. */
  const DataPath: string := "data/data_MAIN_Info.md"
  const EmptyInputMessage: string := "输入文件为空"
  const MissingTitleMessage: string := "文件格式不正确，可能缺少标题"
  const NotFoundPrefix: string := "未找到输入文件: "

  /** What opening and reading the data file gave: not found, another I/O or decoding
      error (which propagates unchanged), or the file's text. */
  datatype DataFile = NotFound | ReadError(error: PyException) | Read(text: string)

  /** `_load_user_content`: a missing file becomes a `RuntimeError`, an empty file and a
      file without a heading a `ValueError`; anything else is returned unmodified. */
  function LoadUserContent(file: DataFile): (r: Result<string, PyException>)
    ensures r.Success? <==> file.Read? && file.text != [] && HasHeading(file.text)
    ensures r.Success? ==> r.value == file.text
    ensures file.NotFound? ==> r == Failure(RuntimeError(NotFoundPrefix + DataPath))
    ensures file.ReadError? ==> r == Failure(file.error)
    ensures file == Read([]) ==> r == Failure(ValueError(EmptyInputMessage))
    ensures file.Read? && file.text != [] && !HasHeading(file.text) ==> r == Failure(ValueError(MissingTitleMessage))
  {
    match file
    case NotFound => Failure(RuntimeError(NotFoundPrefix + DataPath))
    case ReadError(e) => Failure(e)
    case Read(content) =>
      if content == [] then Failure(ValueError(EmptyInputMessage))
      else if !HasHeading(content) then Failure(ValueError(MissingTitleMessage))
      else Success(content)
  }

  /** Content is accepted exactly when its first non-whitespace character is `#`; then
      it is non-empty (so the caller's emptiness test after loading never fires) and is
      passed on unchanged. Whitespace-only content is rejected as lacking a heading. */
  lemma LoadAcceptsIff(text: string)
    ensures LoadUserContent(Read(text)).Success? <==> FirstVisibleIsHash(text)
    ensures LoadUserContent(Read(text)).Success? ==> LoadUserContent(Read(text)).value == text && |text| > 0
    ensures (forall j :: 0 <= j < |text| ==> IsSpace(text[j])) && text != [] ==>
      LoadUserContent(Read(text)) == Failure(ValueError(MissingTitleMessage))
  {
    HasHeadingIff(text);
  }
}
