/** The JavaScript string built-ins the application relies on, as pure
    functions on `string` (a `seq<char>`; each character stands for one
    UTF-16 code unit of the JavaScript string):
    ASCII case mapping, `includes`, `replace` and `replaceAll` with a literal
    (non-regex) pattern, `repeat`, `trim`, and the decimal rendering of a
    natural number inside a template literal. */
module Text {
  import opened Wrappers

  // ---------------------------------------------------------------------
  // Case mapping (ASCII only)
  // ---------------------------------------------------------------------

  predicate IsLower(c: char) { 'a' <= c <= 'z' }

  predicate IsUpper(c: char) { 'A' <= c <= 'Z' }

  /** `toUpperCase` on one character; letters outside ASCII are left alone. */
  function UpperChar(c: char): (u: char)
    ensures !IsLower(u)
    ensures IsLower(c) ==> IsUpper(u) && u as int == c as int - 32
    ensures !IsLower(c) ==> u == c
  {
    if IsLower(c) then (c as int - 32) as char else c
  }

  /** `toLowerCase` on one character; letters outside ASCII are left alone. */
  function LowerChar(c: char): (l: char)
    ensures !IsUpper(l)
    ensures IsUpper(c) ==> IsLower(l) && l as int == c as int + 32
    ensures !IsUpper(c) ==> l == c
  {
    if IsUpper(c) then (c as int + 32) as char else c
  }

  function ToUpper(s: string): (r: string)
    ensures |r| == |s|
    ensures forall i :: 0 <= i < |s| ==> r[i] == UpperChar(s[i])
  {
    seq(|s|, i requires 0 <= i < |s| => UpperChar(s[i]))
  }

  function ToLower(s: string): (r: string)
    ensures |r| == |s|
    ensures forall i :: 0 <= i < |s| ==> r[i] == LowerChar(s[i])
  {
    seq(|s|, i requires 0 <= i < |s| => LowerChar(s[i]))
  }

  predicate NoLower(s: string) {
    forall i :: 0 <= i < |s| ==> !IsLower(s[i])
  }

  lemma ToUpperConcat(a: string, b: string)
    ensures ToUpper(a + b) == ToUpper(a) + ToUpper(b)
  {
    assert forall i :: 0 <= i < |a + b| ==> ToUpper(a + b)[i] == (ToUpper(a) + ToUpper(b))[i];
  }

  /** Upper-casing twice is upper-casing once, and the result has no
      lower-case letter left. */
  lemma ToUpperIdempotent(s: string)
    ensures ToUpper(ToUpper(s)) == ToUpper(s)
    ensures NoLower(ToUpper(s))
  {
  }

  // ---------------------------------------------------------------------
  // Literal substring search: `includes`
  // ---------------------------------------------------------------------

  predicate OccursAt(s: string, w: string, i: nat) {
    i + |w| <= |s| && s[i..i + |w|] == w
  }

  /** `s.includes(w)` */
  predicate Contains(s: string, w: string) {
    exists i: nat :: i <= |s| && OccursAt(s, w, i)
  }

  lemma ContainsEmpty(s: string)
    ensures Contains(s, "")
  {
    assert OccursAt(s, "", 0);
  }

  /** An occurrence in `s[1..]` is an occurrence in `s`, and an occurrence
      in `s` other than at 0 is an occurrence in `s[1..]`. */
  lemma ContainsTail(s: string, w: string)
    requires |s| > 0
    ensures Contains(s[1..], w) ==> Contains(s, w)
    ensures Contains(s, w) && !OccursAt(s, w, 0) ==> Contains(s[1..], w)
  {
    if Contains(s[1..], w) {
      var i: nat :| i <= |s[1..]| && OccursAt(s[1..], w, i);
      assert s[1..][i..i + |w|] == s[i + 1..i + 1 + |w|];
      assert OccursAt(s, w, i + 1);
    }
    if Contains(s, w) && !OccursAt(s, w, 0) {
      var i: nat :| i <= |s| && OccursAt(s, w, i);
      assert i >= 1;
      assert s[1..][i - 1..i - 1 + |w|] == s[i..i + |w|];
      assert OccursAt(s[1..], w, i - 1);
    }
  }

  /** Position of the first occurrence of `w` at or after `from`. */
  function FirstIndex(s: string, w: string, from: nat): (r: Option<nat>)
    decreases |s| - from
    ensures r.Some? ==> from <= r.value && OccursAt(s, w, r.value)
    ensures r.Some? ==> forall j: nat :: from <= j < r.value ==> !OccursAt(s, w, j)
    ensures r.None? ==> forall j: nat :: from <= j ==> !OccursAt(s, w, j)
  {
    if from + |w| > |s| then None
    else if OccursAt(s, w, from) then Some(from)
    else FirstIndex(s, w, from + 1)
  }

  // ---------------------------------------------------------------------
  // Literal replacement: `replace` (first occurrence) and `replaceAll`
  // ---------------------------------------------------------------------

  /** `s.replace(w, rep)` with a string pattern: only the first occurrence
      of `w` is replaced; without one, `s` is returned unchanged. */
  function ReplaceFirst(s: string, w: string, rep: string): (r: string)
    ensures !Contains(s, w) ==> r == s
    ensures Contains(s, w) ==> exists i: nat ::
      i + |w| <= |s| && OccursAt(s, w, i) &&
      (forall j: nat :: j < i ==> !OccursAt(s, w, j)) &&
      r == s[..i] + rep + s[i + |w|..]
  {
    match FirstIndex(s, w, 0)
    case None => s
    case Some(i) => s[..i] + rep + s[i + |w|..]
  }

  /** `s.replaceAll(w, rep)` with a non-empty string pattern: occurrences are
      replaced left to right, and the scan resumes after each replaced
      occurrence, so replacements never overlap and text produced by a
      replacement is never rescanned. */
  function ReplaceAll(s: string, w: string, rep: string): string
    requires |w| > 0
    decreases |s|
  {
    if |s| < |w| then s
    else if s[..|w|] == w then rep + ReplaceAll(s[|w|..], w, rep)
    else [s[0]] + ReplaceAll(s[1..], w, rep)
  }

  /** A text without the pattern is unchanged; a replacement no longer than
      the pattern never lengthens the text, and a shorter one strictly
      shortens it when the pattern occurs. */
  lemma {:induction false} ReplaceAllFacts(s: string, w: string, rep: string)
    requires |w| > 0
    decreases |s|
    ensures !Contains(s, w) ==> ReplaceAll(s, w, rep) == s
    ensures |rep| <= |w| ==> |ReplaceAll(s, w, rep)| <= |s|
    ensures |rep| < |w| && Contains(s, w) ==> |ReplaceAll(s, w, rep)| < |s|
  {
    ScanStepFacts(s, w);
    if |s| < |w| {
    } else if s[..|w|] == w {
      ReplaceAllFacts(s[|w|..], w, rep);
    } else {
      ReplaceAllFacts(s[1..], w, rep);
    }
  }

  /** The content of `replaceAll`: the text before the first occurrence is
      kept, that occurrence becomes `rep`, and the scan resumes right after
      it. Together with "a text without the pattern is unchanged" this pins
      down every character of the result. */
  lemma {:induction false} ReplaceAllAtFirst(s: string, w: string, rep: string, i: nat)
    requires |w| > 0 && FirstOccurrence(s, w, i)
    ensures ReplaceAll(s, w, rep) == s[..i] + rep + ReplaceAll(s[i + |w|..], w, rep)
    decreases i
  {
    if i == 0 {
      ReplaceAllHit(s, w, rep);
    } else {
      var t := s[1..];
      var tail := ReplaceAll(s[i + |w|..], w, rep);
      assert ReplaceAll(s, w, rep) == [s[0]] + ReplaceAll(t, w, rep) by {
        FirstOccurrenceShifts(s, w, i);
        ReplaceAllSkip(s, w, rep);
      }
      assert ReplaceAll(t, w, rep) == t[..i - 1] + rep + tail by {
        FirstOccurrenceShifts(s, w, i);
        DropShift(s, w, i);
        ReplaceAllAtFirst(t, w, rep, i - 1);
      }
      ConsPrefix(s, i, ReplaceAll(s, w, rep), ReplaceAll(t, w, rep), rep, tail);
    }
  }

  /** `w` occurs at `i` and nowhere before. */
  predicate FirstOccurrence(s: string, w: string, i: nat) {
    OccursAt(s, w, i) && forall j: nat :: j < i ==> !OccursAt(s, w, j)
  }

  /** The first occurrence in `s`, if not at 0, is one earlier in `s[1..]`. */
  lemma FirstOccurrenceShifts(s: string, w: string, i: nat)
    requires 0 < i && FirstOccurrence(s, w, i)
    ensures |s| > 0 && !OccursAt(s, w, 0)
    ensures FirstOccurrence(s[1..], w, i - 1)
  {
    var t := s[1..];
    assert t[i - 1..i - 1 + |w|] == s[i..i + |w|];
    forall j: nat | j < i - 1 ensures !OccursAt(t, w, j) {
      assert !OccursAt(s, w, j + 1);
      if j + |w| <= |t| {
        assert t[j..j + |w|] == s[j + 1..j + 1 + |w|];
      }
    }
  }

  lemma DropShift(s: string, w: string, i: nat)
    requires 1 <= i && i + |w| <= |s|
    ensures s[1..][i - 1 + |w|..] == s[i + |w|..]
  {
  }

  lemma ConsPrefix(s: string, i: nat, x: string, rest: string, rep: string, tail: string)
    requires 0 < i <= |s|
    requires x == [s[0]] + rest && rest == s[1..][..i - 1] + rep + tail
    ensures x == s[..i] + rep + tail
  {
    assert [s[0]] + s[1..][..i - 1] == s[..i];
  }

  /** An occurrence at the start is replaced and the scan resumes after it. */
  lemma ReplaceAllHit(s: string, w: string, rep: string)
    requires |w| > 0 && OccursAt(s, w, 0)
    ensures ReplaceAll(s, w, rep) == s[..0] + rep + ReplaceAll(s[|w|..], w, rep)
  {
    assert s[..|w|] == w;
    assert s[..0] + rep == rep;
  }

  /** Without an occurrence at the start, the scan keeps the first character. */
  lemma ReplaceAllSkip(s: string, w: string, rep: string)
    requires |w| > 0 && |s| > 0 && !OccursAt(s, w, 0)
    ensures ReplaceAll(s, w, rep) == [s[0]] + ReplaceAll(s[1..], w, rep)
  {
    if |s| >= |w| {
      assert s[..|w|] != w;
    } else {
      assert ReplaceAll(s[1..], w, rep) == s[1..];
      assert [s[0]] + s[1..] == s;
    }
  }

  /** Facts `ReplaceAll` needs about one step of its scan. */
  lemma ScanStepFacts(s: string, w: string)
    requires |w| > 0
    ensures |s| < |w| ==> !Contains(s, w)
    ensures |s| >= |w| && s[..|w|] == w ==> Contains(s, w)
    ensures |s| >= |w| && s[..|w|] != w ==>
      (Contains(s, w) <==> Contains(s[1..], w))
  {
    if |s| >= |w| && s[..|w|] == w {
      assert OccursAt(s, w, 0);
    }
    if |s| >= |w| && s[..|w|] != w {
      assert !OccursAt(s, w, 0);
      ContainsTail(s, w);
    }
  }

  /** The per-level clean-up step of the text collector:
      `replaceAll("  ", " ")`, a single left-to-right pass. */
  function Collapse(s: string): string {
    ReplaceAll(s, "  ", " ")
  }

  /** One pass never lengthens the text, and it leaves the text unchanged
      exactly when there is no double space in it. */
  lemma CollapseFixedIff(s: string)
    ensures |Collapse(s)| <= |s|
    ensures Collapse(s) == s <==> !Contains(s, "  ")
  {
    ReplaceAllFacts(s, "  ", " ");
  }

  /** The pass is not iterated to a fixed point: three spaces become two. */
  lemma CollapseThreeSpaces()
    ensures Collapse("   ") == "  "
  {
    assert "   "[..2] == "  ";
    assert "   "[2..] == " ";
  }

  lemma CollapseTwoSpaces()
    ensures Collapse("  ") == " "
  {
    assert "  "[..2] == "  ";
    assert "  "[2..] == "";
  }

  lemma CollapseCons(c: char, s: string)
    requires c != ' '
    ensures Collapse([c] + s) == [c] + Collapse(s)
  {
    var t := [c] + s;
    assert t[1..] == s;
    if |t| >= 2 {
      assert t[..2][0] == c;
    }
  }

  /** A run of `n` spaces followed by a non-space (or by nothing) becomes
      `ceil(n / 2)` spaces: each pair of spaces becomes one, and an odd space
      left over is kept. With `CollapseCons` this determines the clean-up of
      every text. */
  lemma {:induction false} CollapseRun(n: nat, s: string)
    requires |s| == 0 || s[0] != ' '
    ensures Collapse(Repeat(' ', n) + s) == Repeat(' ', (n + 1) / 2) + Collapse(s)
    decreases n
  {
    if n == 0 {
      assert Repeat(' ', n) + s == s;
    } else if n == 1 {
      CollapseLoneSpace(s);
    } else {
      var rest := Repeat(' ', n - 2) + s;
      assert Collapse(Repeat(' ', n) + s) == " " + Collapse(rest) by {
        var t := Repeat(' ', n) + s;
        assert t[..2] == "  ";
        assert t[2..] == rest;
      }
      assert Collapse(rest) == Repeat(' ', (n - 1) / 2) + Collapse(s) by {
        CollapseRun(n - 2, s);
      }
      SpaceRunGrows((n - 1) / 2, Collapse(s));
    }
  }

  /** A single space before a non-space, or at the end, is kept. */
  lemma CollapseLoneSpace(s: string)
    requires |s| == 0 || s[0] != ' '
    ensures Collapse(Repeat(' ', 1) + s) == Repeat(' ', 1) + Collapse(s)
  {
    var t := Repeat(' ', 1) + s;
    assert t[0] == ' ' && t[1..] == s;
    if |s| > 0 {
      assert t[..2] != "  " by { assert t[1] == s[0]; }
    } else {
      assert t == " ";
    }
  }

  lemma SpaceRunGrows(k: nat, x: string)
    ensures " " + (Repeat(' ', k) + x) == Repeat(' ', k + 1) + x
  {
    assert " " + Repeat(' ', k) == Repeat(' ', k + 1);
  }

  /** A character other than a space closes any run of spaces, so it passes
      through the clean-up step untouched at the end of the text. */
  lemma {:induction false} CollapseSnoc(s: string, c: char)
    requires c != ' '
    ensures Collapse(s + [c]) == Collapse(s) + [c]
    decreases |s|
  {
    var t := s + [c];
    if |s| == 0 {
    } else if |s| == 1 {
      assert t[1] == c;
      assert t[..2] != "  ";
      assert t[1..] == [c];
      assert Collapse([c]) == [c];
      assert Collapse(s) == s;
    } else if s[..2] == "  " {
      assert t[..2] == "  ";
      assert t[2..] == s[2..] + [c];
      CollapseSnoc(s[2..], c);
    } else {
      assert t[..2] == s[..2];
      assert t[1..] == s[1..] + [c];
      CollapseSnoc(s[1..], c);
    }
  }

  /** A prefix with no double space of its own survives the clean-up step
      whatever follows it. */
  lemma {:induction false} CollapseKeepsPrefix(a: string, b: string)
    requires !Contains(a, "  ")
    ensures |a| <= |Collapse(a + b)| && Collapse(a + b)[..|a|] == a
    decreases |a|
  {
    if |a| == 0 {
      return;
    }
    var t := a + b;
    var a' := a[1..];
    assert t[1..] == a' + b;
    ContainsTail(a, "  ");
    if a[0] != ' ' {
      assert t == [a[0]] + (a' + b);
      CollapseCons(a[0], a' + b);
      CollapseKeepsPrefix(a', b);
    } else if |a| == 1 {
      // the single space is either kept or stands for a double space
    } else {
      assert !OccursAt(a, "  ", 0);
      assert a[..2] != "  ";
      assert t[..2] == a[..2];
      CollapseKeepsPrefix(a', b);
    }
  }

  /** Upper-casing and the clean-up step commute: neither creates nor
      removes a space. */
  lemma {:induction false} UpperCollapseCommute(s: string)
    ensures ToUpper(Collapse(s)) == Collapse(ToUpper(s))
    decreases |s|
  {
    var u := ToUpper(s);
    if |s| < 2 {
    } else if s[..2] == "  " {
      assert u[..2] == "  ";
      assert u[2..] == ToUpper(s[2..]);
      UpperCollapseCommute(s[2..]);
      ToUpperConcat(" ", Collapse(s[2..]));
    } else {
      assert u[..2] != "  " by {
        if s[0] != ' ' { assert u[0] != ' '; } else { assert u[1] != ' '; }
      }
      assert u[1..] == ToUpper(s[1..]);
      UpperCollapseCommute(s[1..]);
      ToUpperConcat([s[0]], Collapse(s[1..]));
    }
  }

  // ---------------------------------------------------------------------
  // `repeat`, `trim` and number rendering
  // ---------------------------------------------------------------------

  /** `c.repeat(n)` for a one-character string `c`. */
  function Repeat(c: char, n: nat): (r: string)
    ensures |r| == n
    ensures forall i :: 0 <= i < n ==> r[i] == c
  {
    seq(n, _ => c)
  }

  function DigitChar(d: nat): (c: char)
    requires d < 10
    ensures '0' <= c <= '9'
  {
    (48 + d) as char
  }

  /** Decimal rendering of a natural number, as `${n}` produces it. */
  function NatToString(n: nat): (r: string)
    ensures |r| > 0
    ensures forall i :: 0 <= i < |r| ==> '0' <= r[i] <= '9'
  {
    if n < 10 then [DigitChar(n)] else NatToString(n / 10) + [DigitChar(n % 10)]
  }

  /** The characters `String.prototype.trim` removes: the ECMAScript
      WhiteSpace and LineTerminator code points. */
  predicate IsJsSpace(c: char) {
    || c == '\t' || c == '\n' || c == '\U{B}' || c == '\U{C}' || c == '\r'
    || c == ' ' || c == '\U{A0}' || c == '\U{1680}'
    || ('\U{2000}' <= c <= '\U{200A}')
    || c == '\U{2028}' || c == '\U{2029}' || c == '\U{202F}' || c == '\U{205F}'
    || c == '\U{3000}' || c == '\U{FEFF}'
  }

  predicate AllSpace(s: string) {
    forall i :: 0 <= i < |s| ==> IsJsSpace(s[i])
  }

  function TrimStart(s: string): (r: string)
    decreases |s|
    ensures |r| <= |s| && r == s[|s| - |r|..]
    ensures AllSpace(s[..|s| - |r|])
    ensures |r| > 0 ==> !IsJsSpace(r[0])
  {
    if |s| > 0 && IsJsSpace(s[0]) then TrimStart(s[1..]) else s
  }

  function TrimEnd(s: string): (r: string)
    decreases |s|
    ensures |r| <= |s| && r == s[..|r|]
    ensures AllSpace(s[|r|..])
    ensures |r| > 0 ==> !IsJsSpace(r[|r| - 1])
  {
    if |s| > 0 && IsJsSpace(s[|s| - 1]) then TrimEnd(s[..|s| - 1]) else s
  }

  /** `s.trim()`: the longest slice of `s` that neither starts nor ends with
      white space, obtained by removing only white space at both ends. */
  function Trim(s: string): (r: string)
    ensures exists lo: nat :: TrimmedAt(s, r, lo)
    ensures |r| > 0 ==> !IsJsSpace(r[0]) && !IsJsSpace(r[|r| - 1])
  {
    TrimFacts(s);
    TrimEnd(TrimStart(s))
  }

  lemma TrimFacts(s: string)
    ensures TrimmedAt(s, TrimEnd(TrimStart(s)), |s| - |TrimStart(s)|)
    ensures |TrimEnd(TrimStart(s))| > 0 ==> !IsJsSpace(TrimEnd(TrimStart(s))[0])
    ensures |TrimEnd(TrimStart(s))| > 0 ==>
      !IsJsSpace(TrimEnd(TrimStart(s))[|TrimEnd(TrimStart(s))| - 1])
  {
    var t := TrimStart(s);
    var r := TrimEnd(t);
    TrimWitness(s, t, r);
    TrimKeepsHead(t, r);
  }

  lemma TrimKeepsHead(t: string, r: string)
    requires |t| > 0 ==> !IsJsSpace(t[0])
    requires |r| <= |t| && r == t[..|r|]
    ensures |r| > 0 ==> !IsJsSpace(r[0])
  {
    if |r| > 0 {
      assert r[0] == t[0];
    }
  }

  /** `r` is the slice of `s` starting at `lo`, with only white space around it. */
  predicate TrimmedAt(s: string, r: string, lo: nat) {
    && lo + |r| <= |s|
    && r == s[lo..lo + |r|]
    && AllSpace(s[..lo])
    && AllSpace(s[lo + |r|..])
  }

  lemma TrimWitness(s: string, t: string, r: string)
    requires |t| <= |s| && t == s[|s| - |t|..] && AllSpace(s[..|s| - |t|])
    requires |r| <= |t| && r == t[..|r|] && AllSpace(t[|r|..])
    ensures TrimmedAt(s, r, |s| - |t|)
  {
    var lo := |s| - |t|;
    assert r == s[lo..lo + |r|];
    assert s[lo + |r|..] == t[|r|..];
  }
}
