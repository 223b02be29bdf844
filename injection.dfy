/**
 * The string core of `inject_script_to_html` in installer.py: find the last
 * occurrence of the marker ignoring letter case, look for the tag in a short
 * window before it, and otherwise insert the tag and a newline there. Also
 * the encoding fallback loop that reads the document first.
 */
module Injection {
  import opened Wrappers
  import opened Text

  /** The tag that is inserted: `<script src="S"></script>`. */
  function ScriptTag(src: string): string
  {
    "<script src=\"" + src + "\"></script>"
  }

  /** `pat` occurs in `text` starting at index `p`. */
  predicate MatchAt(text: string, pat: string, p: int)
  {
    0 <= p && p + |pat| <= |text| && text[p..p + |pat|] == pat
  }

  /** Python's `pat in text`. */
  predicate Contains(text: string, pat: string)
  {
    exists p | 0 <= p <= |text| - |pat| :: MatchAt(text, pat, p)
  }

  /** `p` is where the last occurrence of `pat` in `text` starts. */
  ghost predicate IsLastMatch(text: string, pat: string, p: int)
  {
    MatchAt(text, pat, p) && forall q :: p < q ==> !MatchAt(text, pat, q)
  }

  /** `text.rindex(pat)`, with `None` for the `ValueError` it raises when `pat` does not occur. */
  function LastIndexOf(text: string, pat: string): (r: Option<nat>)
    ensures r.None? <==> forall p :: !MatchAt(text, pat, p)
    ensures r.Some? ==> IsLastMatch(text, pat, r.value)
  {
    if |pat| > |text| then None else LastMatchFrom(text, pat, |text| - |pat|)
  }

  /** The last occurrence of `pat` that starts at or before `i`. */
  function LastMatchFrom(text: string, pat: string, i: nat): (r: Option<nat>)
    requires i + |pat| <= |text|
    ensures r.None? <==> forall p :: p <= i ==> !MatchAt(text, pat, p)
    ensures r.Some? ==> r.value <= i && MatchAt(text, pat, r.value)
    ensures r.Some? ==> forall q :: r.value < q <= i ==> !MatchAt(text, pat, q)
    decreases i
  {
    if text[i..i + |pat|] == pat then
      assert MatchAt(text, pat, i);
      Some(i)
    else if i == 0 then None
    else LastMatchFrom(text, pat, i - 1)
  }

  /** `content[max(0, p - len(tag) - 10):p]`: the characters just before the insertion point. */
  function Window(content: string, p: nat, tag: string): string
    requires p <= |content|
  {
    var start := if p - |tag| - 10 > 0 then p - |tag| - 10 else 0;
    content[start..p]
  }

  /** What the string logic decides: no marker, tag already there, or the new document text. */
  datatype Injection = MarkerNotFound | AlreadyInjected | Inserted(content: string)

  /**
   * Lines 262-274 of `inject_script_to_html`. Lower-casing is per character,
   * so an index into `content.lower()` is an index into `content`.
   */
  function InjectTag(content: string, tag: string, marker: string): (r: Injection)
    ensures r.MarkerNotFound? <==> forall p :: !MatchAt(Lower(content), Lower(marker), p)
    ensures r.Inserted? ==> |r.content| == |content| + |tag| + 1
  {
    match LastIndexOf(Lower(content), Lower(marker))
    case None => MarkerNotFound
    case Some(p) =>
      if Contains(Window(content, p, tag), tag) then AlreadyInjected
      else Inserted(content[..p] + tag + "\n" + content[p..])
  }

  /** The document text after the call: rewritten only when the tag was inserted. */
  function InjectedDocument(content: string, tag: string, marker: string): string
  {
    match InjectTag(content, tag, marker)
    case Inserted(n) => n
    case _ => content
  }

  /**
   * When the last case-insensitive occurrence of the marker starts at `p`:
   * if the tag is in the window before `p` nothing is written, and otherwise
   * the result is the content with the tag and a newline inserted at `p`,
   * every other character unchanged.
   */
  lemma InjectAtLastMarker(content: string, tag: string, marker: string, p: nat)
    requires IsLastMatch(Lower(content), Lower(marker), p)
    ensures p <= |content|
    ensures InjectTag(content, tag, marker)
      == if Contains(Window(content, p, tag), tag) then AlreadyInjected
         else Inserted(content[..p] + tag + "\n" + content[p..])
  {
    var r := LastIndexOf(Lower(content), Lower(marker));
    assert r.Some? by {
      assert MatchAt(Lower(content), Lower(marker), p);
    }
    var p' := r.value;
    assert !(p < p') && !(p' < p);
  }

  /** Whatever was inserted lands right before an occurrence of the marker. */
  lemma InsertedBeforeMarker(content: string, tag: string, marker: string)
    requires InjectTag(content, tag, marker).Inserted?
    ensures exists p :: (0 <= p <= |content|
      && InjectTag(content, tag, marker).content == content[..p] + tag + "\n" + content[p..]
      && MatchAt(Lower(content[p..]), Lower(marker), 0))
  {
    var p := LastIndexOf(Lower(content), Lower(marker)).value;
    LowerSlice(content, p, |content|);
    assert content[p..|content|] == content[p..];
    assert Lower(content)[p..|content|][..|marker|] == Lower(content)[p..p + |marker|];
    assert MatchAt(Lower(content[p..]), Lower(marker), 0);
  }

  /**
   * Inserting `d` characters at `p`, before the last occurrence of the
   * marker, moves that last occurrence to `p + d`.
   */
  lemma {:induction false} InsertionShiftsLastMatch(content: string, ins: string, marker: string, p: nat)
    requires IsLastMatch(Lower(content), Lower(marker), p)
    ensures p <= |content|
    ensures IsLastMatch(Lower(content[..p] + ins + content[p..]), Lower(marker), p + |ins|)
  {
    var l, m := Lower(content), Lower(marker);
    var n := content[..p] + ins + content[p..];
    var d := |ins|;
    var ln := Lower(n);
    assert forall i :: p + d <= i < |n| ==> ln[i] == l[i - d] by {
      forall i | p + d <= i < |n| ensures ln[i] == l[i - d] {
        assert n[i] == content[i - d];
      }
    }
    assert MatchAt(ln, m, p + d) by {
      assert ln[p + d..p + d + |m|] == l[p..p + |m|];
    }
    forall q | p + d < q ensures !MatchAt(ln, m, q) {
      if MatchAt(ln, m, q) {
          assert l[q - d..q - d + |m|] == ln[q..q + |m|];
        assert MatchAt(l, m, q - d);
      }
    }
  }

  /** A tag followed by one more character lies inside the window that ends after that character. */
  lemma TagInWindow(n: string, p: nat, tag: string)
    requires p + |tag| + 1 <= |n| && n[p..p + |tag|] == tag
    ensures Contains(Window(n, p + |tag| + 1, tag), tag)
  {
    var e := p + |tag| + 1;
    var start := if e - |tag| - 10 > 0 then e - |tag| - 10 else 0;
    var w := Window(n, e, tag);
    assert w == n[start..e];
    assert start <= p;
    var o := p - start;
    assert w[o..o + |tag|] == tag by {
      forall i | 0 <= i < |tag| ensures w[o..o + |tag|][i] == tag[i] {
        assert w[o + i] == n[p + i];
        assert n[p..p + |tag|][i] == n[p + i];
      }
    }
    assert MatchAt(w, tag, o);
  }

  /**
   * Injecting into the output of a successful injection finds the tag in
   * the window: the marker last occurs right after the inserted `tag + "\n"`,
   * which fits in the `len(tag) + 10` characters that are searched.
   */
  lemma SecondInjectionFindsTag(content: string, tag: string, marker: string)
    requires InjectTag(content, tag, marker).Inserted?
    ensures InjectTag(InjectTag(content, tag, marker).content, tag, marker) == AlreadyInjected
  {
    var p := LastIndexOf(Lower(content), Lower(marker)).value;
    var n := InjectTag(content, tag, marker).content;
    assert n == content[..p] + (tag + "\n") + content[p..];
    InsertionShiftsLastMatch(content, tag + "\n", marker, p);
    assert n[p..p + |tag|] == tag;
    TagInWindow(n, p, tag);
    InjectAtLastMarker(n, tag, marker, p + |tag| + 1);
  }

  /** Injecting twice gives the same document as injecting once. */
  lemma InjectIdempotent(content: string, tag: string, marker: string)
    ensures InjectedDocument(InjectedDocument(content, tag, marker), tag, marker)
      == InjectedDocument(content, tag, marker)
  {
    if InjectTag(content, tag, marker).Inserted? {
      SecondInjectionFindsTag(content, tag, marker);
    }
  }

  /** Documents without upper-case letters are their own lower-cased form. */
  lemma LowerOfLowerCase(s: string)
    requires forall i :: 0 <= i < |s| ==> !IsUpper(s[i])
    ensures Lower(s) == s
  {
  }

  /** A pattern longer than the text does not occur in it. */
  lemma TooShortToContain(text: string, pat: string)
    requires |text| < |pat|
    ensures !Contains(text, pat)
  {
  }

  const ExamplePage := "<p>hi</p></body></html>"

  lemma ExampleLastMarker()
    ensures IsLastMatch(Lower(ExamplePage), Lower("</body>"), 9)
  {
    var c, m := ExamplePage, "</body>";
    LowerOfLowerCase(c);
    LowerOfLowerCase(m);
    assert c[9..16] == m;
    forall q | 9 < q ensures !MatchAt(c, m, q) {
      if 9 < q <= |c| - |m| {
        assert c[q..q + |m|][0] == c[q];
        assert c[q..q + |m|][2] == c[q + 2];
      }
    }
  }

  lemma ExampleSplit()
    ensures ExamplePage[..9] == "<p>hi</p>" && ExamplePage[9..] == "</body></html>"
  {
  }

  /**
   * An example: in `<p>hi</p></body></html>` with marker
   * `</body>`, the tag and a newline go between `</p>` and `</body>`.
   */
  lemma InjectExample(src: string)
    ensures InjectTag(ExamplePage, ScriptTag(src), "</body>")
      == Inserted("<p>hi</p>" + ScriptTag(src) + "\n" + "</body></html>")
  {
    var tag := ScriptTag(src);
    ExampleLastMarker();
    TooShortToContain(Window(ExamplePage, 9, tag), tag);
    InjectAtLastMarker(ExamplePage, tag, "</body>", 9);
    ExampleSplit();
  }

  // ---------------------------------------------------------------------
  // Reading the document

  /** The encodings tried, in order. */
  datatype Encoding = Utf8 | Cp1252 | Latin1

  const Encodings: seq<Encoding> := [Utf8, Cp1252, Latin1]

  /**
   * What `html_path.read_text(encoding=e)` does: returns the text, raises
   * `UnicodeDecodeError` (try the next encoding), or raises anything else.
   */
  datatype ReadAttempt = Decodes | DecodeError | ReadError

  /** The outcome of the encoding loop. */
  datatype ReadResult = ReadAs(encoding: Encoding) | Undecodable | ReadFailed

  /** The first encoding that decodes wins; any error other than a decoding error ends the search. */
  function FirstDecoding(attempt: Encoding -> ReadAttempt, encodings: seq<Encoding>): (r: ReadResult)
    ensures r.ReadAs? ==> exists i :: (0 <= i < |encodings| && encodings[i] == r.encoding
      && attempt(encodings[i]) == Decodes
      && forall j :: 0 <= j < i ==> attempt(encodings[j]) == DecodeError)
    ensures r == Undecodable <==> forall i :: 0 <= i < |encodings| ==> attempt(encodings[i]) == DecodeError
    ensures r == ReadFailed ==> exists i :: (0 <= i < |encodings|
      && attempt(encodings[i]) == ReadError
      && forall j :: 0 <= j < i ==> attempt(encodings[j]) == DecodeError)
  {
    if encodings == [] then Undecodable
    else
      match attempt(encodings[0])
      case Decodes => ReadAs(encodings[0])
      case ReadError => ReadFailed
      case DecodeError =>
        var r := FirstDecoding(attempt, encodings[1..]);
        assert forall i :: 0 < i < |encodings| ==> encodings[i] == encodings[1..][i - 1];
        r
  }

  /** The loop `for encoding in ['utf-8', 'cp1252', 'latin-1']` with its `break` and early `return`. */
  method ReadWithFallback(attempt: Encoding -> ReadAttempt) returns (r: ReadResult)
    ensures r == FirstDecoding(attempt, Encodings)
  {
    var i := 0;
    while i < |Encodings|
      invariant 0 <= i <= |Encodings|
      invariant FirstDecoding(attempt, Encodings[i..]) == FirstDecoding(attempt, Encodings)
    {
      assert Encodings[i..][1..] == Encodings[i + 1..];
      match attempt(Encodings[i]) {
        case Decodes =>
          return ReadAs(Encodings[i]);
        case ReadError =>
          return ReadFailed;
        case DecodeError =>
      }
      i := i + 1;
    }
    return Undecodable;
  }

  // ---------------------------------------------------------------------
  // The source as written: indices from Python's full str.lower()

  /**
   * `str.lower()` as Python applies it, for the characters that matter
   * here: ASCII letters fold as in `LowerChar`, and U+0130 (capital I with
   * dot above) becomes the two characters `i` and U+0307.
   */
  function PyLowerChar(c: char): string
  {
    if c == '\U{130}' then "i\U{307}" else [LowerChar(c)]
  }

  function PyLower(s: string): string
  {
    if s == [] then [] else PyLowerChar(s[0]) + PyLower(s[1..])
  }

  /** Python's clamping of a slice bound to the length of the sequence. */
  function Clamp(i: nat, n: nat): nat
  {
    if i <= n then i else n
  }

  /**
   * Lines 262-274 as written: the index is found in `content.lower()` but
   * used to slice `content`, which is shorter when lower-casing expanded a
   * character.
   */
  function InjectTagAsWritten(content: string, tag: string, marker: string): Injection
  {
    match LastIndexOf(PyLower(content), PyLower(marker))
    case None => MarkerNotFound
    case Some(p) =>
      var q := Clamp(p, |content|);
      var start := Clamp(if p - |tag| - 10 > 0 then p - |tag| - 10 else 0, q);
      if Contains(content[start..q], tag) then AlreadyInjected
      else Inserted(content[..q] + tag + "\n" + content[q..])
  }

  /** On ASCII text without upper-case letters, `str.lower()` changes nothing. */
  lemma {:induction false} PyLowerOfLowerCase(s: string)
    requires forall i :: 0 <= i < |s| ==> s[i] < '\U{80}' && !IsUpper(s[i])
    ensures PyLower(s) == s
  {
    if s != [] {
      PyLowerOfLowerCase(s[1..]);
      assert s == [s[0]] + s[1..];
    }
  }

  lemma PyLowerOfDottedI()
    ensures PyLower("\U{130}</body>") == "i\U{307}</body>"
  {
    var s := "\U{130}</body>";
    assert s[1..] == "</body>";
    PyLowerOfLowerCase("</body>");
  }

  lemma DottedISplit()
    ensures "\U{130}</body>"[..2] == "\U{130}<" && "\U{130}</body>"[2..] == "/body>"
    ensures "\U{130}</body>"[..1] == "\U{130}" && "\U{130}</body>"[1..] == "</body>"
  {
  }

  /**
   * A document whose text before `</body>` contains U+0130: as written,
   * the tag is inserted one character too late, inside the marker, leaving
   * `<` before the tag and `/body>` after it.
   */
  lemma DottedCapitalISplitsMarker(src: string)
    ensures InjectTagAsWritten("\U{130}</body>", ScriptTag(src), "</body>")
      == Inserted("\U{130}<" + ScriptTag(src) + "\n" + "/body>")
  {
    var c, m, tag := "\U{130}</body>", "</body>", ScriptTag(src);
    PyLowerOfDottedI();
    PyLowerOfLowerCase(m);
    var lc := PyLower(c);
    assert lc[2..9] == m;
    assert LastIndexOf(lc, m) == Some(2);
    TooShortToContain(c[0..2], tag);
    DottedISplit();
  }

  /** On the same document the per-character search inserts the tag right before `</body>`. */
  lemma DottedCapitalIKeepsMarker(src: string)
    ensures InjectTag("\U{130}</body>", ScriptTag(src), "</body>")
      == Inserted("\U{130}" + ScriptTag(src) + "\n" + "</body>")
  {
    var c, m, tag := "\U{130}</body>", "</body>", ScriptTag(src);
    LowerOfLowerCase(c);
    LowerOfLowerCase(m);
    assert c[1..8] == m;
    assert IsLastMatch(c, m, 1);
    TooShortToContain(Window(c, 1, tag), tag);
    InjectAtLastMarker(c, tag, m, 1);
    DottedISplit();
  }
}
