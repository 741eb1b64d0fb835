/** The text normaliser in front of the analyser
    (`normalize_input_for_presidio` in instant-redaction-service/utils/common_utils.py).

    `IsSpace` and `IsBreak` are Python's own character classes for `str.strip` and `str.splitlines`. */
module Normalizer {
  predicate IsBreak(c: char) {
    c in {'\n', '\r', '\U{0B}', '\U{0C}', '\U{1C}', '\U{1D}', '\U{1E}', '\U{85}', '\U{2028}', '\U{2029}'}
  }

  predicate IsSpace(c: char) {
    IsBreak(c) || c in {' ', '\t', '\U{1F}', '\U{A0}', '\U{1680}', '\U{202F}', '\U{205F}', '\U{3000}'}
    || '\U{2000}' <= c <= '\U{200A}'
  }

  // ----- str.splitlines, str.strip and str.join

  /** Length of the line break that `s` starts with, CR LF counting as one; 0 if there is none. */
  function BreakLength(s: string): (k: nat)
    ensures k <= |s|
  {
    if s == [] || !IsBreak(s[0]) then 0
    else if s[0] == '\r' && |s| > 1 && s[1] == '\n' then 2
    else 1
  }

  /** The lines of `line + s` where `line` has no break; no empty line after a final break. */
  function LinesFrom(line: string, s: string): seq<string>
    decreases |s|
  {
    if s == [] then (if line != [] then [line] else [])
    else if BreakLength(s) > 0 then [line] + LinesFrom([], s[BreakLength(s)..])
    else LinesFrom(line + [s[0]], s[1..])
  }

  function StripLeft(s: string): string {
    if s != [] && IsSpace(s[0]) then StripLeft(s[1..]) else s
  }

  function StripRight(s: string): string {
    if s != [] && IsSpace(s[|s| - 1]) then StripRight(s[..|s| - 1]) else s
  }

  function Strip(s: string): string {
    StripRight(StripLeft(s))
  }

  /** The stripped lines, blank ones dropped. */
  function Cleaned(lines: seq<string>): seq<string> {
    if lines == [] then []
    else (if Strip(lines[0]) != [] then [Strip(lines[0])] else []) + Cleaned(lines[1..])
  }

  function Join(separator: string, parts: seq<string>): string {
    if parts == [] then []
    else if |parts| == 1 then parts[0]
    else parts[0] + separator + Join(separator, parts[1..])
  }

  function Normalize(text: string): string {
    Join(" \n ", Cleaned(LinesFrom([], text)))
  }

  // ----- Nothing visible is lost

  /** The characters that are no white space. */
  function Visible(s: string): string {
    if s == [] then [] else (if IsSpace(s[0]) then [] else [s[0]]) + Visible(s[1..])
  }

  function VisibleAll(lines: seq<string>): string {
    if lines == [] then [] else Visible(lines[0]) + VisibleAll(lines[1..])
  }

  lemma {:induction false} VisibleOfConcat(a: string, b: string)
    ensures Visible(a + b) == Visible(a) + Visible(b)
  {
    if a == [] {
      assert a + b == b;
    } else {
      assert (a + b)[1..] == a[1..] + b;
      VisibleOfConcat(a[1..], b);
    }
  }

  lemma {:induction false} LinesKeepVisible(line: string, s: string)
    ensures VisibleAll(LinesFrom(line, s)) == Visible(line) + Visible(s)
    decreases |s|
  {
    if s != [] {
      var k := BreakLength(s);
      if k > 0 {
        LinesKeepVisible([], s[k..]);
        if k == 2 {
          assert s[1..][1..] == s[2..];
        }
      } else {
        LinesKeepVisible(line + [s[0]], s[1..]);
        VisibleOfConcat(line, [s[0]]);
        assert [s[0]][1..] == [];
      }
    }
  }

  lemma {:induction false} StripLeftKeepsVisible(s: string)
    ensures Visible(StripLeft(s)) == Visible(s)
  {
    if s != [] && IsSpace(s[0]) {
      StripLeftKeepsVisible(s[1..]);
    }
  }

  lemma {:induction false} StripRightKeepsVisible(s: string)
    ensures Visible(StripRight(s)) == Visible(s)
    decreases |s|
  {
    if s != [] && IsSpace(s[|s| - 1]) {
      StripRightKeepsVisible(s[..|s| - 1]);
      VisibleOfConcat(s[..|s| - 1], [s[|s| - 1]]);
      assert s == s[..|s| - 1] + [s[|s| - 1]];
      assert [s[|s| - 1]][1..] == [];
    }
  }

  lemma StripKeepsVisible(s: string)
    ensures Visible(Strip(s)) == Visible(s)
  {
    StripLeftKeepsVisible(s);
    StripRightKeepsVisible(StripLeft(s));
  }

  lemma {:induction false} CleanedKeepsVisible(lines: seq<string>)
    ensures VisibleAll(Cleaned(lines)) == VisibleAll(lines)
  {
    if lines != [] {
      CleanedKeepsVisible(lines[1..]);
      StripKeepsVisible(lines[0]);
      if Strip(lines[0]) != [] {
        assert Cleaned(lines)[0] == Strip(lines[0]) && Cleaned(lines)[1..] == Cleaned(lines[1..]);
      } else {
        assert Visible(lines[0]) == Visible("") == [];
        assert Cleaned(lines) == [] + Cleaned(lines[1..]) == Cleaned(lines[1..]);
      }
    }
  }

  lemma {:induction false} JoinKeepsVisible(parts: seq<string>)
    ensures Visible(Join(" \n ", parts)) == VisibleAll(parts)
  {
    if |parts| == 1 {
      assert parts[1..] == [];
    } else if |parts| > 1 {
      var rest := Join(" \n ", parts[1..]);
      JoinKeepsVisible(parts[1..]);
      VisibleOfConcat(parts[0] + " \n ", rest);
      VisibleOfConcat(parts[0], " \n ");
      assert " \n "[1..] == "\n " && "\n "[1..] == " " && " "[1..] == [];
      assert Visible(" \n ") == [];
    }
  }

  /** Normalising keeps every character that is no white space, in order. */
  lemma NormalizeKeepsVisible(text: string)
    ensures Visible(Normalize(text)) == Visible(text)
  {
    LinesKeepVisible([], text);
    CleanedKeepsVisible(LinesFrom([], text));
    JoinKeepsVisible(Cleaned(LinesFrom([], text)));
  }

  // ----- Idempotence

  predicate NoBreak(s: string) {
    forall i :: 0 <= i < |s| ==> !IsBreak(s[i])
  }

  /** A non-empty line without breaks and without white space at its ends. */
  predicate Clean(s: string) {
    s != [] && NoBreak(s) && !IsSpace(s[0]) && !IsSpace(s[|s| - 1])
  }

  lemma {:induction false} StripLeftIsSuffix(s: string)
    ensures StripLeft(s) == [] || !IsSpace(StripLeft(s)[0])
    ensures |StripLeft(s)| <= |s| && StripLeft(s) == s[|s| - |StripLeft(s)|..]
  {
    if s != [] && IsSpace(s[0]) {
      StripLeftIsSuffix(s[1..]);
    }
  }

  lemma {:induction false} StripRightIsPrefix(s: string)
    ensures StripRight(s) == [] || !IsSpace(StripRight(s)[|StripRight(s)| - 1])
    ensures StripRight(s) <= s
    decreases |s|
  {
    if s != [] && IsSpace(s[|s| - 1]) {
      StripRightIsPrefix(s[..|s| - 1]);
    }
  }

  lemma StripIsClean(s: string)
    requires NoBreak(s) && Strip(s) != []
    ensures Clean(Strip(s))
  {
    StripLeftIsSuffix(s);
    StripRightIsPrefix(StripLeft(s));
  }

  lemma {:induction false} LinesHaveNoBreak(line: string, s: string)
    requires NoBreak(line)
    ensures forall i :: 0 <= i < |LinesFrom(line, s)| ==> NoBreak(LinesFrom(line, s)[i])
    decreases |s|
  {
    if s != [] {
      if BreakLength(s) > 0 {
        LinesHaveNoBreak([], s[BreakLength(s)..]);
      } else {
        LinesHaveNoBreak(line + [s[0]], s[1..]);
      }
    }
  }

  lemma {:induction false} CleanedAreClean(lines: seq<string>)
    requires forall i :: 0 <= i < |lines| ==> NoBreak(lines[i])
    ensures forall i :: 0 <= i < |Cleaned(lines)| ==> Clean(Cleaned(lines)[i])
  {
    if lines != [] {
      CleanedAreClean(lines[1..]);
      if Strip(lines[0]) != [] {
        StripIsClean(lines[0]);
      }
    }
  }

  /** A run without breaks is one line. */
  lemma {:induction false} RunIsOneLine(line: string, run: string, rest: string)
    requires NoBreak(run)
    ensures LinesFrom(line, run + (['\n'] + rest)) == [line + run] + LinesFrom([], rest)
    ensures line + run != [] ==> LinesFrom(line, run) == [line + run]
    decreases |run|
  {
    var s := run + (['\n'] + rest);
    if run == [] {
      assert s == ['\n'] + rest && s[1..] == rest && line + run == line;
    } else {
      assert s[1..] == run[1..] + (['\n'] + rest);
      assert line + [run[0]] + run[1..] == line + run;
      RunIsOneLine(line + [run[0]], run[1..], rest);
    }
  }

  /** Padding a clean line does not survive stripping. */
  lemma StripPadded(pad: string, s: string, tail: string)
    requires Clean(s) && pad in ["", " "] && tail in ["", " "]
    ensures Strip(pad + s + tail) == s
  {
    var padded := pad + s + tail;
    assert (s + tail)[0] == s[0];
    assert StripLeft(s + tail) == s + tail;
    if pad == " " {
      assert padded[1..] == s + tail;
    } else {
      assert padded == s + tail;
    }
    assert StripRight(s) == s;
    if tail == " " {
      assert (s + tail)[..|s|] == s;
    } else {
      assert s + tail == s;
    }
  }

  /** Reading the joined lines back gives the same lines. */
  lemma {:induction false} CleanedOfJoin(pad: string, parts: seq<string>)
    requires pad in ["", " "] && parts != []
    requires forall i :: 0 <= i < |parts| ==> Clean(parts[i])
    ensures Cleaned(LinesFrom([], pad + Join(" \n ", parts))) == parts
    decreases |parts|
  {
    var first := pad + parts[0];
    if |parts| == 1 {
      RunIsOneLine([], first, []);
      StripPadded(pad, parts[0], "");
      assert [] + first == first == pad + parts[0] + "";
      assert [first][1..] == [];
    } else {
      var rest := Join(" \n ", parts[1..]);
      var line := first + " ";
      assert pad + Join(" \n ", parts) == line + (['\n'] + (" " + rest));
      RunIsOneLine([], line, " " + rest);
      assert [] + line == line == pad + parts[0] + " ";
      StripPadded(pad, parts[0], " ");
      CleanedOfJoin(" ", parts[1..]);
      var lines := LinesFrom([], pad + Join(" \n ", parts));
      assert lines[0] == line && lines[1..] == LinesFrom([], " " + rest);
    }
  }

  /** Normalising twice is normalising once. */
  lemma NormalizeIsIdempotent(text: string)
    ensures Normalize(Normalize(text)) == Normalize(text)
  {
    var parts := Cleaned(LinesFrom([], text));
    LinesHaveNoBreak([], text);
    CleanedAreClean(LinesFrom([], text));
    if parts != [] {
      CleanedOfJoin("", parts);
      assert "" + Join(" \n ", parts) == Normalize(text);
    }
  }

  /** The normal form, without reference to lines: what `Normalize` returns is a fixed point, and a
      text is one exactly when it is a `" \n "` join of clean lines. */
  lemma FixedPointsAreJoins(text: string)
    ensures Normalize(text) == text
            <==> exists parts :: (forall i :: 0 <= i < |parts| ==> Clean(parts[i])) && text == Join(" \n ", parts)
  {
    LinesHaveNoBreak([], text);
    CleanedAreClean(LinesFrom([], text));
    if parts: seq<string> :| (forall i :: 0 <= i < |parts| ==> Clean(parts[i])) && text == Join(" \n ", parts) {
      if parts != [] {
        CleanedOfJoin("", parts);
        assert "" + text == text;
      }
    }
  }

  // ----- Which text it gives

  /** Python's white space and line breaks, by code point. */
  lemma SpacesAndBreaks(c: char)
    ensures var n := c as int;
            && (IsBreak(c) <==> 10 <= n <= 13 || 28 <= n <= 30 || n == 0x85 || n == 0x2028 || n == 0x2029)
            && (IsSpace(c) <==> 9 <= n <= 13 || 28 <= n <= 32 || n == 0x85 || n == 0xA0 || n == 0x1680
                                || 0x2000 <= n <= 0x200A || n == 0x2028 || n == 0x2029 || n == 0x202F || n == 0x205F
                                || n == 0x3000)
  {
  }

  predicate AllSpace(s: string) {
    forall i :: 0 <= i < |s| ==> IsSpace(s[i])
  }

  lemma {:induction false} StripLeftCuts(s: string) returns (pad: string)
    ensures s == pad + StripLeft(s) && AllSpace(pad)
  {
    if s != [] && IsSpace(s[0]) {
      var rest := StripLeftCuts(s[1..]);
      pad := [s[0]] + rest;
      assert s == [s[0]] + s[1..] == [s[0]] + (rest + StripLeft(s[1..])) == pad + StripLeft(s[1..]);
    } else {
      pad := "";
    }
  }

  lemma {:induction false} StripRightCuts(s: string) returns (pad: string)
    ensures s == StripRight(s) + pad && AllSpace(pad)
    decreases |s|
  {
    if s != [] && IsSpace(s[|s| - 1]) {
      var rest := StripRightCuts(s[..|s| - 1]);
      pad := rest + [s[|s| - 1]];
      assert s == s[..|s| - 1] + [s[|s| - 1]] == StripRight(s[..|s| - 1]) + pad;
    } else {
      pad := "";
    }
  }

  /** Stripping cuts white space off both ends, and all of it; nothing is left exactly of white space alone. */
  lemma StripCutsSpace(s: string) returns (before: string, behind: string)
    ensures s == before + Strip(s) + behind && AllSpace(before) && AllSpace(behind)
    ensures Strip(s) != "" ==> !IsSpace(Strip(s)[0]) && !IsSpace(Strip(s)[|Strip(s)| - 1])
    ensures Strip(s) == "" <==> AllSpace(s)
  {
    before := StripLeftCuts(s);
    behind := StripRightCuts(StripLeft(s));
    StripLeftIsSuffix(s);
    StripRightIsPrefix(StripLeft(s));
    if Strip(s) != "" {
      assert s[|before|] == Strip(s)[0];
    }
  }

  /** A line break as it is written: one of the break characters, or CR LF. */
  predicate Break(b: string) {
    b == "\r\n" || (|b| == 1 && IsBreak(b[0]))
  }

  /** Lines one after the other, each with its break. */
  function Written(lines: seq<(string, string)>): string {
    if lines == [] then [] else lines[0].0 + (lines[0].1 + Written(lines[1..]))
  }

  /** Lines without breaks, each followed by one, and no CR that an empty line's LF would turn into a CR LF. */
  predicate Separable(lines: seq<(string, string)>) {
    && (forall i :: 0 <= i < |lines| ==> NoBreak(lines[i].0) && Break(lines[i].1))
    && (forall i :: 0 <= i < |lines| - 1 && lines[i].1 == "\r" ==> lines[i + 1] != ("", "\n"))
  }

  function Texts(lines: seq<(string, string)>): (texts: seq<string>)
    ensures |texts| == |lines| && forall i :: 0 <= i < |lines| ==> texts[i] == lines[i].0
  {
    seq(|lines|, i requires 0 <= i < |lines| => lines[i].0)
  }

  lemma {:induction false} RunIsRead(line: string, run: string, rest: string)
    requires NoBreak(run)
    ensures LinesFrom(line, run + rest) == LinesFrom(line + run, rest)
    decreases |run|
  {
    if run == [] {
      assert run + rest == rest && line + run == line;
    } else {
      assert (run + rest)[1..] == run[1..] + rest;
      assert line + [run[0]] + run[1..] == line + run;
      RunIsRead(line + [run[0]], run[1..], rest);
    }
  }

  lemma BreakEndsLine(line: string, b: string, rest: string)
    requires Break(b) && (b == "\r" ==> rest == [] || rest[0] != '\n')
    ensures LinesFrom(line, b + rest) == [line] + LinesFrom([], rest)
  {
    var s := b + rest;
    assert BreakLength(s) == |b|;
    assert s[|b|..] == rest;
  }

  lemma StartsWithLf(lines: seq<(string, string)>, last: string)
    requires Separable(lines) && NoBreak(last)
    requires Written(lines) + last != [] && (Written(lines) + last)[0] == '\n'
    ensures lines != [] && lines[0] == ("", "\n")
  {
    if lines != [] && lines[0].0 == "" {
      var b := lines[0].1;
      assert Written(lines) + last == b + (Written(lines[1..]) + last);
      assert |b| == 1 ==> b == [b[0]];
    }
  }

  lemma FirstWrittenLine(lines: seq<(string, string)>, last: string)
    requires lines != [] && Separable(lines) && NoBreak(last)
    ensures LinesFrom([], Written(lines) + last) == [lines[0].0] + LinesFrom([], Written(lines[1..]) + last)
  {
    var line, b, rest := lines[0].0, lines[0].1, Written(lines[1..]) + last;
    assert Written(lines) + last == line + (b + rest) && [] + line == line;
    if rest != [] && rest[0] == '\n' {
      StartsWithLf(lines[1..], last);
      assert lines[1] == ("", "\n");
    }
    RunIsRead([], line, b + rest);
    BreakEndsLine(line, b, rest);
  }

  /** Text written as lines with any of Python's breaks is split into exactly these lines. */
  lemma {:induction false} LinesComeBack(lines: seq<(string, string)>, last: string)
    requires Separable(lines) && NoBreak(last)
    ensures LinesFrom([], Written(lines) + last) == Texts(lines) + (if last == "" then [] else [last])
  {
    if lines == [] {
      assert Written(lines) + last == last == last + [] && [] + last == last;
      RunIsRead([], last, []);
    } else {
      FirstWrittenLine(lines, last);
      LinesComeBack(lines[1..], last);
      assert Texts(lines) == [lines[0].0] + Texts(lines[1..]);
    }
  }

  /** A line is stripped, and dropped if nothing is left. */
  lemma CleanedLine(s: string)
    ensures Cleaned([s]) == if AllSpace(s) then [] else [Strip(s)]
  {
    var before, behind := StripCutsSpace(s);
    assert [s][1..] == [];
  }

  /** Lines are cleaned one by one. */
  lemma {:induction false} CleanedIsPiecewise(a: seq<string>, b: seq<string>)
    ensures Cleaned(a + b) == Cleaned(a) + Cleaned(b)
  {
    if a == [] {
      assert a + b == b;
    } else {
      var first := if Strip(a[0]) != [] then [Strip(a[0])] else [];
      assert (a + b)[1..] == a[1..] + b;
      CleanedIsPiecewise(a[1..], b);
      assert first + (Cleaned(a[1..]) + Cleaned(b)) == first + Cleaned(a[1..]) + Cleaned(b);
    }
  }

  lemma {:induction false} JoinIsPiecewise(separator: string, parts: seq<string>, last: string)
    ensures Join(separator, []) == "" && Join(separator, [last]) == last
    ensures parts != [] ==> Join(separator, parts + [last]) == Join(separator, parts) + separator + last
  {
    if |parts| == 1 {
      assert (parts + [last])[1..] == [last];
    } else if |parts| > 1 {
      assert (parts + [last])[1..] == parts[1..] + [last];
      JoinIsPiecewise(separator, parts[1..], last);
    }
  }

  /** So the normal form of a text written as lines is the join of these lines, stripped, without the blank ones. */
  lemma NormalFormOfLines(lines: seq<(string, string)>, last: string)
    requires Separable(lines) && NoBreak(last)
    ensures Normalize(Written(lines) + last) == Join(" \n ", Cleaned(Texts(lines) + [last]))
  {
    LinesComeBack(lines, last);
    if last == "" {
      CleanedIsPiecewise(Texts(lines), [last]);
      CleanedLine(last);
      assert Cleaned(Texts(lines) + [last]) == Cleaned(Texts(lines)) + [] == Cleaned(Texts(lines));
      assert Texts(lines) + [] == Texts(lines);
    }
  }
}
