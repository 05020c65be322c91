// The test suite's helpers: the `<|>` cursor marker, the Debug-text
// comparison, and the cursor fallback of the matching-brace test.

module TestSupport {
  import opened Wrappers
  import opened Syntax
  import Editor

  const CURSOR: string := "<|>"

  /** `pat` occurs in `text` at index `i`. */
  predicate OccursAt(text: string, pat: string, i: nat) {
    i + |pat| <= |text| && text[i..i + |pat|] == pat
  }

  /** `str::find` from index `from` on: the first occurrence of `pat`. */
  function FindFrom(text: string, pat: string, from: nat): (r: Option<nat>)
    ensures r.Some? ==> from <= r.value && OccursAt(text, pat, r.value)
    ensures r.Some? ==> forall i :: from <= i < r.value ==> !OccursAt(text, pat, i)
    ensures r.None? ==> forall i :: from <= i ==> !OccursAt(text, pat, i)
    decreases |text| - from
  {
    if |text| < from + |pat| then None
    else if OccursAt(text, pat, from) then Some(from)
    else FindFrom(text, pat, from + 1)
  }

  /** `str::find`. */
  function FindSubstring(text: string, pat: string): Option<nat> {
    FindFrom(text, pat, 0)
  }

  ghost predicate HasCursor(text: string) {
    exists i :: OccursAt(text, CURSOR, i)
  }

  /** What `extract_cursor` computes: the index of the first marker and the
      text without it; `None` where it panics for want of a marker. */
  function Extracted(text: string): (r: Option<(nat, string)>)
    ensures r.None? <==> !HasCursor(text)
    ensures r.Some? ==> OccursAt(text, CURSOR, r.value.0) &&
                        (forall i :: 0 <= i < r.value.0 ==> !OccursAt(text, CURSOR, i)) &&
                        |r.value.1| == |text| - |CURSOR|
  {
    match FindSubstring(text, CURSOR)
    case None => None
    case Some(p) => Some((p, text[..p] + text[p + |CURSOR|..]))
  }

  /** `extract_cursor`, building the new text piece by piece. */
  method ExtractCursor(text: string) returns (r: Option<(nat, string)>)
    ensures r == Extracted(text)
  {
    var found := FindSubstring(text, CURSOR);
    if found.None? {
      return None;
    }
    var cursorPos := found.value;
    var newText: string := [];
    newText := newText + text[..cursorPos];
    newText := newText + text[cursorPos + |CURSOR|..];
    assert newText == text[..cursorPos] + text[cursorPos + |CURSOR|..];
    r := Some((cursorPos, newText));
  }

  /** What `add_cursor` computes: the marker inserted at `offset`. */
  function WithCursor(text: string, offset: nat): (r: string)
    requires offset <= |text|
    ensures |r| == |text| + |CURSOR|
    ensures OccursAt(r, CURSOR, offset)
    ensures r[..offset] == text[..offset] && r[offset + |CURSOR|..] == text[offset..]
  {
    text[..offset] + CURSOR + text[offset..]
  }

  /** `add_cursor`, building the result piece by piece. The slices of the
      source panic past the end of the text. */
  method AddCursor(text: string, offset: nat) returns (res: string)
    requires offset <= |text|
    ensures res == WithCursor(text, offset)
  {
    res := [];
    res := res + text[..offset];
    res := res + CURSOR;
    res := res + text[offset..];
  }

  /** Extracting the marker and putting it back gives the original text. */
  lemma ExtractThenAdd(text: string)
    requires Extracted(text).Some?
    ensures Extracted(text).value.0 <= |Extracted(text).value.1|
    ensures WithCursor(Extracted(text).value.1, Extracted(text).value.0) == text
  {
    var (p, s) := Extracted(text).value;
    assert s[..p] == text[..p];
    assert s[p..] == text[p + |CURSOR|..];
    assert text == text[..p] + text[p..p + |CURSOR|] + text[p + |CURSOR|..];
  }

  /** A marker cannot straddle the boundary of an inserted marker. */
  lemma NoMarkerAcross(s: string, o: nat, i: nat)
    requires o <= |s| && i < o && o < i + |CURSOR|
    ensures !OccursAt(WithCursor(s, o), CURSOR, i)
  {
    var t := WithCursor(s, o);
    assert t[o] == '<';
    if i + |CURSOR| <= |t| {
      assert t[i..i + |CURSOR|][o - i] == t[o];
      assert CURSOR[o - i] != '<';
    }
  }

  /** Putting the marker into a text that has none, then extracting it,
      gives back the offset and the text. */
  lemma AddThenExtract(s: string, o: nat)
    requires o <= |s| && !HasCursor(s)
    ensures Extracted(WithCursor(s, o)) == Some((o, s))
  {
    var t := WithCursor(s, o);
    forall i | 0 <= i < o
      ensures !OccursAt(t, CURSOR, i)
    {
      if i + |CURSOR| <= o {
        assert t[i..i + 3] == s[i..i + 3] by {
          assert t[..o] == s[..o];
          assert t[..o][i..i + 3] == t[i..i + 3];
          assert s[..o][i..i + 3] == s[i..i + 3];
        }
        assert !OccursAt(s, CURSOR, i);
      } else {
        NoMarkerAcross(s, o, i);
      }
    }
    assert OccursAt(t, CURSOR, o);
    var p := Extracted(t).value.0;
    assert p == o;
    assert t[..o] + t[o + |CURSOR|..] == s;
  }

  // ---------------------------------------------------------------- dbg_eq

  /** `char::is_whitespace`: the characters with the Unicode White_Space
      property. */
  predicate IsWhitespace(c: char) {
    c == ' ' || c == '\t' || c == '\n' || c == '\r' || c == '\U{000B}' || c == '\U{000C}' ||
    c == '\U{0085}' || c == '\U{00A0}' || c == '\U{1680}' || ('\U{2000}' <= c <= '\U{200A}') ||
    c == '\U{2028}' || c == '\U{2029}' || c == '\U{202F}' || c == '\U{205F}' || c == '\U{3000}'
  }

  /** `str::trim_start`. */
  function TrimStart(s: string): (r: string)
    ensures |r| <= |s| && r == s[|s| - |r|..]
    ensures forall i :: 0 <= i < |s| - |r| ==> IsWhitespace(s[i])
    ensures r != [] ==> !IsWhitespace(r[0])
  {
    if s != [] && IsWhitespace(s[0]) then TrimStart(s[1..]) else s
  }

  /** `str::trim_end`. */
  function TrimEnd(s: string): (r: string)
    ensures |r| <= |s| && r == s[..|r|]
    ensures forall i :: |r| <= i < |s| ==> IsWhitespace(s[i])
    ensures r != [] ==> !IsWhitespace(r[|r| - 1])
  {
    if s != [] && IsWhitespace(s[|s| - 1]) then TrimEnd(s[..|s| - 1]) else s
  }

  /** `str::trim`. */
  function Trim(s: string): string {
    TrimEnd(TrimStart(s))
  }

  /** The trimmed text is a slice of the original with only whitespace cut
      on either side, and neither of its ends is whitespace. */
  lemma TrimSlice(s: string)
    ensures exists a, b :: 0 <= a <= b <= |s| && Trim(s) == s[a..b] &&
              (forall i :: 0 <= i < a ==> IsWhitespace(s[i])) &&
              (forall i :: b <= i < |s| ==> IsWhitespace(s[i]))
    ensures Trim(s) != [] ==> !IsWhitespace(Trim(s)[0]) && !IsWhitespace(Trim(s)[|Trim(s)| - 1])
  {
    var u := TrimStart(s);
    var v := TrimEnd(u);
    CutBothEnds(s, u, v);
    TrimEnds(s);
    var a := |s| - |u|;
    assert Trim(s) == s[a..a + |v|];
  }

  /** A prefix `v` of a suffix `u` of `s` is the slice of `s` where it sits;
      whatever `u` has after `v` is what `s` has there. */
  lemma CutBothEnds(s: string, u: string, v: string)
    requires |u| <= |s| && u == s[|s| - |u|..] && |v| <= |u| && v == u[..|v|]
    requires forall i :: |v| <= i < |u| ==> IsWhitespace(u[i])
    ensures v == s[|s| - |u|..|s| - |u| + |v|]
    ensures forall i :: |s| - |u| + |v| <= i < |s| ==> IsWhitespace(s[i])
  {
    var a := |s| - |u|;
    assert s[a..][..|v|] == s[a..a + |v|];
    forall i | a + |v| <= i < |s|
      ensures IsWhitespace(s[i])
    {
      assert s[i] == u[i - a];
    }
  }

  lemma TrimEnds(s: string)
    ensures Trim(s) != [] ==> !IsWhitespace(Trim(s)[0]) && !IsWhitespace(Trim(s)[|Trim(s)| - 1])
  {
    var u := TrimStart(s);
    var v := TrimEnd(u);
    if v != [] {
      assert v == u[..|v|] && v[0] == u[0];
    }
  }

  /** A line without its trailing carriage return, if it has one. */
  function StripCr(line: string): (r: string)
    ensures |line| - 1 <= |r| <= |line| && r == line[..|r|]
  {
    if line != [] && line[|line| - 1] == '\r' then line[..|line| - 1] else line
  }

  /** `str::lines`: the pieces between line feeds, each without a trailing
      carriage return; a final line feed does not start another line. */
  function Lines(s: string): (r: seq<string>)
    ensures forall i :: 0 <= i < |r| ==> '\n' !in r[i]
    decreases |s|
  {
    if s == [] then []
    else
      match FindSubstring(s, "\n")
      case None =>
        NoLineFeedBefore(s, |s|);
        assert s[..|s|] == s;
        [StripCr(s)]
      case Some(i) =>
        assert s[i..i + 1] == "\n";
        NoLineFeedBefore(s, i);
        [StripCr(s[..i])] + Lines(s[i + 1..])
  }

  lemma NoLineFeedBefore(s: string, i: nat)
    requires i <= |s| && forall j :: 0 <= j < i ==> !OccursAt(s, "\n", j)
    ensures '\n' !in s[..i]
  {
    forall j | 0 <= j < i
      ensures s[j] != '\n'
    {
      assert s[j..j + 1] == [s[j]];
      assert !OccursAt(s, "\n", j);
      assert "\n" == ['\n'];
    }
  }

  /** Each line trimmed. */
  function TrimAll(lines: seq<string>): seq<string> {
    Map(lines, Trim)
  }

  /** `join(sep)`. */
  function Join(parts: seq<string>, sep: string): string {
    if parts == [] then []
    else if |parts| == 1 then parts[0]
    else parts[0] + sep + Join(parts[1..], sep)
  }

  /** The expected text as `dbg_eq` normalises it: its lines, each trimmed,
      joined by single spaces. */
  function Normalized(expected: string): string {
    Join(TrimAll(Lines(expected)), " ")
  }

  /** `dbg_eq`; `actual` is the Debug rendering of the value. */
  predicate DbgEq(expected: string, actual: string) {
    Normalized(expected) == actual
  }

  lemma {:induction false} JoinWithoutLineFeeds(parts: seq<string>, sep: string)
    requires '\n' !in sep
    requires forall i :: 0 <= i < |parts| ==> '\n' !in parts[i]
    ensures '\n' !in Join(parts, sep)
  {
    if |parts| > 1 {
      JoinWithoutLineFeeds(parts[1..], sep);
    }
  }

  lemma TrimKeepsNoLineFeed(s: string)
    requires '\n' !in s
    ensures '\n' !in Trim(s)
  {
    TrimSlice(s);
  }

  /** Whatever the expected text, `dbg_eq` compares against a single line. */
  lemma NormalizedIsOneLine(expected: string)
    ensures '\n' !in Normalized(expected)
  {
    var lines := Lines(expected);
    forall i | 0 <= i < |lines|
      ensures '\n' !in TrimAll(lines)[i]
    {
      TrimKeepsNoLineFeed(lines[i]);
    }
    JoinWithoutLineFeeds(TrimAll(lines), " ");
  }

  /** A one-line expected text matches exactly its trimmed self; a trailing
      carriage return is whitespace and is trimmed away either way. */
  lemma DbgEqOneLine(expected: string, actual: string)
    requires '\n' !in expected
    ensures DbgEq(expected, actual) <==> actual == Trim(expected)
  {
    if expected == [] {
      assert Lines(expected) == [];
      assert Normalized(expected) == [];
      assert TrimStart(expected) == [];
    } else {
      LinesOfLine(expected);
      assert TrimAll([StripCr(expected)]) == [Trim(StripCr(expected))];
      TrimStripCr(expected);
    }
  }

  /** Trimming ignores a trailing carriage return. */
  lemma TrimStripCr(s: string)
    ensures Trim(StripCr(s)) == Trim(s)
  {
    if s != [] && s[|s| - 1] == '\r' {
      var c := s[..|s| - 1];
      assert s == c + ['\r'];
      TrimDropsLastWhitespace(c, '\r');
    }
  }

  /** A whitespace character at the end makes no difference to `trim`. */
  lemma {:induction false} TrimDropsLastWhitespace(c: string, w: char)
    requires IsWhitespace(w)
    ensures Trim(c + [w]) == Trim(c)
  {
    if c == [] {
      assert ([] + [w])[1..] == [];
    } else if IsWhitespace(c[0]) {
      assert (c + [w])[1..] == c[1..] + [w];
      TrimDropsLastWhitespace(c[1..], w);
    } else {
      TrimEndDropsWhitespace(c, w);
    }
  }

  lemma TrimEndDropsWhitespace(c: string, w: char)
    requires IsWhitespace(w)
    ensures TrimEnd(c + [w]) == TrimEnd(c)
  {
    assert (c + [w])[..|c|] == c;
  }

  /** The first line feed of `a + "\n" + b` is the one after `a`. */
  lemma FirstLineFeed(a: string, b: string)
    requires '\n' !in a
    ensures FindSubstring(a + "\n" + b, "\n") == Some(|a|)
  {
    var s := a + "\n" + b;
    assert s[|a|..|a| + 1] == "\n";
    forall j | 0 <= j < |a|
      ensures !OccursAt(s, "\n", j)
    {
      assert s[j..j + 1] == [a[j]];
      assert "\n" == ['\n'];
    }
    var r := FindFrom(s, "\n", 0);
    assert OccursAt(s, "\n", |a|);
    assert r.Some?;
    assert r.value <= |a|;
    assert OccursAt(s, "\n", r.value);
    assert r.value == |a|;
  }

  /** `lines` cuts at the first line feed: the text before it, without a
      trailing carriage return, then the lines of the rest. */
  lemma LinesSplit(a: string, b: string)
    requires '\n' !in a
    ensures Lines(a + "\n" + b) == [StripCr(a)] + Lines(b)
  {
    var s := a + "\n" + b;
    FirstLineFeed(a, b);
    assert s[..|a|] == a;
    assert s[|a| + 1..] == b;
  }

  /** A non-empty text without a line feed is one line. */
  lemma LinesOfLine(a: string)
    requires a != [] && '\n' !in a
    ensures Lines(a) == [StripCr(a)]
  {
    forall j: nat
      ensures !OccursAt(a, "\n", j)
    {
      if j < |a| {
        assert a[j..j + 1] == [a[j]];
        assert "\n" == ['\n'];
      }
    }
    assert FindSubstring(a, "\n").None?;
    assert a[..|a|] == a;
  }

  lemma LinesNonEmpty(s: string)
    requires s != []
    ensures Lines(s) != []
  {
    if FindSubstring(s, "\n").Some? {
      assert Lines(s)[0] == StripCr(s[..FindSubstring(s, "\n").value]);
    }
  }

  /** How `dbg_eq` normalises a multi-line expected text: the first line,
      trimmed, then a single space, then the rest normalised. */
  lemma NormalizedSplit(a: string, b: string)
    requires '\n' !in a && b != []
    ensures Normalized(a + "\n" + b) == Trim(StripCr(a)) + " " + Normalized(b)
  {
    LinesSplit(a, b);
    LinesNonEmpty(b);
    MapCons(StripCr(a), Lines(b), Trim);
    JoinCons(Trim(StripCr(a)), TrimAll(Lines(b)), " ");
  }

  lemma JoinCons(part: string, parts: seq<string>, sep: string)
    requires parts != []
    ensures Join([part] + parts, sep) == part + sep + Join(parts, sep)
  {
    assert ([part] + parts)[1..] == parts;
  }

  // ---------------------------------------------------------------- do_check

  /** The cursor of the matching-brace test: the matching brace's offset, or
      the old position when there is none. */
  function CursorAfterMatch(file: Editor.File, pos: nat): (r: nat)
    ensures Editor.MatchingBrace(file, pos).None? ==> r == pos
    ensures Editor.MatchingBrace(file, pos).Some? ==> r == Editor.MatchingBrace(file, pos).value
  {
    Editor.MatchingBrace(file, pos).GetOr(pos)
  }

  /** `do_check`'s actual text: the marker moved to the cursor after the
      match; `None` where the test panics for want of a marker. `file` stands
      for the parse of the text without the marker; parsing keeps the text. */
  function MatchingBraceActual(before: string, file: Editor.File): (r: Option<string>)
    requires Extracted(before).Some? ==> Text(file.root) == Extracted(before).value.1
    ensures r.None? <==> !HasCursor(before)
  {
    match Extracted(before)
    case None => None
    case Some((pos, text)) =>
      ExtractThenAdd(before);
      CursorInText(file, pos);
      Some(WithCursor(text, CursorAfterMatch(file, pos)))
  }

  /** The moved cursor is still an offset of the text. */
  lemma CursorInText(file: Editor.File, pos: nat)
    requires pos <= |Text(file.root)|
    ensures CursorAfterMatch(file, pos) <= |Text(file.root)|
  {
    if Editor.MatchingBrace(file, pos).Some? {
      Editor.MatchingBraceInText(file, pos);
    }
  }

  /** When no brace matches, `do_check` hands back its input unchanged. */
  lemma NoMatchKeepsText(before: string, file: Editor.File)
    requires Extracted(before).Some? && Text(file.root) == Extracted(before).value.1
    requires Editor.MatchingBrace(file, Extracted(before).value.0).None?
    ensures MatchingBraceActual(before, file) == Some(before)
  {
    ExtractThenAdd(before);
  }

  /** When a brace matches, the marker lands at its offset and the text
      around it is the text without the marker. */
  lemma MatchMovesCursor(before: string, file: Editor.File)
    requires Extracted(before).Some? && Text(file.root) == Extracted(before).value.1
    requires Editor.MatchingBrace(file, Extracted(before).value.0).Some?
    ensures var q := Editor.MatchingBrace(file, Extracted(before).value.0).value;
            q <= |Text(file.root)| &&
            MatchingBraceActual(before, file) == Some(WithCursor(Text(file.root), q))
  {
    Editor.MatchingBraceInText(file, Extracted(before).value.0);
  }
}
