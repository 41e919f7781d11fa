/** Atomic deletion of dosage tokens in a dose description.

    A dosage token is a match of the global regular expression
    `(\d+|Y)\/(\d+|Y)` ("8/8", "1/1", "Y/Y"). When Backspace is pressed with
    the cursor right after a token, or Delete with the cursor right before
    one, the whole token is removed and the cursor moves to where the token
    started; otherwise the key keeps its ordinary single-character effect. */
module DosageTokens {
  import opened Wrappers

  predicate IsDigit(c: char) { '0' <= c <= '9' }

  // ---------------------------------------------------------------------
  // The regular expression, as a reference predicate and as a matcher
  // ---------------------------------------------------------------------

  /** The characters `lo` to `hi` of `s` are a match of `(\d+|Y)`: a
      non-empty run of digits or the placeholder `Y`. */
  predicate OperandIn(s: string, lo: nat, hi: nat)
    requires lo <= hi <= |s|
  {
    (lo < hi && forall k :: lo <= k < hi ==> IsDigit(s[k])) || (hi == lo + 1 && s[lo] == 'Y')
  }

  /** The characters `lo` to `hi` of `s` are a match of `(\d+|Y)\/(\d+|Y)`. */
  predicate TokenIn(s: string, lo: nat, hi: nat)
    requires lo <= hi <= |s|
  {
    exists j :: lo <= j < hi && s[j] == '/' && OperandIn(s, lo, j) && OperandIn(s, j + 1, hi)
  }

  /** A text matched by `(\d+|Y)\/(\d+|Y)` as a whole. */
  predicate IsTokenText(w: string) {
    TokenIn(w, 0, |w|)
  }

  /** The length of the run of digits that starts at `i`. */
  function DigitRun(s: string, i: nat): (k: nat)
    requires i <= |s|
    decreases |s| - i
    ensures i + k <= |s|
    ensures forall j :: i <= j < i + k ==> IsDigit(s[j])
    ensures i + k < |s| ==> !IsDigit(s[i + k])
  {
    if i < |s| && IsDigit(s[i]) then 1 + DigitRun(s, i + 1) else 0
  }

  /** Where a match of `(\d+|Y)` starting at `i` ends: `\d+` is tried first
      and takes every digit; the placeholder `Y` is tried only when `\d+`
      fails. */
  function OperandEnd(s: string, i: nat): (r: Option<nat>)
    requires i <= |s|
    ensures r.Some? ==> i < r.value <= |s|
  {
    if i < |s| && IsDigit(s[i]) then Some(i + DigitRun(s, i))
    else if i < |s| && s[i] == 'Y' then Some(i + 1)
    else None
  }

  /** Where the match of the token expression that starts at `i` ends, if the
      expression matches there. Giving the first operand fewer digits never
      helps, since a digit, not `/`, would then follow it. */
  function MatchAt(s: string, i: nat): (r: Option<nat>)
    requires i <= |s|
    ensures r.Some? ==> i < r.value <= |s|
  {
    match OperandEnd(s, i)
    case None => None
    case Some(j) => if j < |s| && s[j] == '/' then OperandEnd(s, j + 1) else None
  }

  lemma {:induction false} DigitRunCovers(s: string, i: nat, j: nat)
    requires i <= j <= |s|
    requires forall k :: i <= k < j ==> IsDigit(s[k])
    ensures i + DigitRun(s, i) >= j
    ensures j < |s| && !IsDigit(s[j]) ==> i + DigitRun(s, i) == j
    decreases j - i
  {
    if i < j {
      DigitRunCovers(s, i + 1, j);
    }
  }

  lemma OperandEndIsOperand(s: string, i: nat)
    requires i <= |s| && OperandEnd(s, i).Some?
    ensures OperandIn(s, i, OperandEnd(s, i).value)
  {
  }

  /** An operand that starts at `i` ends no later than the matcher's
      operand, and exactly there when a non-digit follows it. */
  lemma OperandEndMaximal(s: string, i: nat, e: nat)
    requires i <= e <= |s| && OperandIn(s, i, e)
    ensures OperandEnd(s, i).Some? && e <= OperandEnd(s, i).value
    ensures e < |s| && !IsDigit(s[e]) ==> OperandEnd(s, i).value == e
  {
    if i < e && forall k :: i <= k < e ==> IsDigit(s[k]) {
      DigitRunCovers(s, i, e);
    }
  }

  /** An operand inside a slice is an operand of the whole text, shifted. */
  lemma OperandSlice(s: string, lo: nat, hi: nat, a: nat, b: nat)
    requires lo <= a <= b <= hi <= |s|
    ensures OperandIn(s[lo..hi], a - lo, b - lo) <==> OperandIn(s, a, b)
  {
    var w := s[lo..hi];
    forall k | a <= k < b ensures w[k - lo] == s[k] {
    }
    if a < b {
      assert w[a - lo] == s[a];
    }
  }

  /** A slice is a token text exactly when its range of the whole text is
      a token. */
  lemma TokenSlice(s: string, i: nat, e: nat)
    requires i <= e <= |s|
    ensures IsTokenText(s[i..e]) <==> TokenIn(s, i, e)
  {
    if IsTokenText(s[i..e]) {
      SliceTokenIsToken(s, i, e);
    }
    if TokenIn(s, i, e) {
      TokenIsSliceToken(s, i, e);
    }
  }

  lemma SliceTokenIsToken(s: string, i: nat, e: nat)
    requires i <= e <= |s| && IsTokenText(s[i..e])
    ensures TokenIn(s, i, e)
  {
    var w := s[i..e];
    var j :| 0 <= j < |w| && w[j] == '/' && OperandIn(w, 0, j) && OperandIn(w, j + 1, |w|);
    OperandSlice(s, i, e, i, i + j);
    OperandSlice(s, i, e, i + j + 1, e);
    assert s[i + j] == w[j];
  }

  lemma TokenIsSliceToken(s: string, i: nat, e: nat)
    requires i <= e <= |s| && TokenIn(s, i, e)
    ensures IsTokenText(s[i..e])
  {
    var w := s[i..e];
    var j :| i <= j < e && s[j] == '/' && OperandIn(s, i, j) && OperandIn(s, j + 1, e);
    OperandSlice(s, i, e, i, j);
    OperandSlice(s, i, e, j + 1, e);
    assert w[j - i] == s[j];
  }

  /** The matcher finds exactly the longest token text starting at `i`: what
      it matches is a token text, and every token text starting at `i` is
      matched and ends no later than the match (`\d+` is greedy). */
  lemma MatchIsLongestToken(s: string, i: nat)
    requires i <= |s|
    ensures MatchAt(s, i).Some? ==> IsTokenText(s[i..MatchAt(s, i).value])
    ensures forall e :: i <= e <= |s| && IsTokenText(s[i..e]) ==>
      MatchAt(s, i).Some? && e <= MatchAt(s, i).value
  {
    if MatchAt(s, i).Some? {
      MatchIsToken(s, i);
      TokenSlice(s, i, MatchAt(s, i).value);
    }
    forall e | i <= e <= |s| && IsTokenText(s[i..e])
      ensures MatchAt(s, i).Some? && e <= MatchAt(s, i).value
    {
      TokenSlice(s, i, e);
      TokenIsMatched(s, i, e);
    }
  }

  lemma MatchIsToken(s: string, i: nat)
    requires i <= |s| && MatchAt(s, i).Some?
    ensures TokenIn(s, i, MatchAt(s, i).value)
  {
    var j := OperandEnd(s, i).value;
    OperandEndIsOperand(s, i);
    OperandEndIsOperand(s, j + 1);
  }

  lemma TokenIsMatched(s: string, i: nat, e: nat)
    requires i <= e <= |s| && TokenIn(s, i, e)
    ensures MatchAt(s, i).Some? && e <= MatchAt(s, i).value
  {
    var j :| i <= j < e && s[j] == '/' && OperandIn(s, i, j) && OperandIn(s, j + 1, e);
    OperandEndMaximal(s, i, j);
    assert OperandEnd(s, i) == Some(j);
    OperandEndMaximal(s, j + 1, e);
  }

  // ---------------------------------------------------------------------
  // The global scan: leftmost, non-overlapping matches
  // ---------------------------------------------------------------------

  /** A match, as the half-open range `[start, end)` of the value. */
  datatype Token = Token(start: nat, end: nat)

  /** The matches `regex.exec` returns one after the other from position
      `from` on: each search resumes where the previous match ended and
      returns the leftmost match from there. */
  function Scan(s: string, from: nat): seq<Token>
    requires from <= |s|
    decreases |s| - from
  {
    if from == |s| then []
    else
      match MatchAt(s, from)
      case Some(e) => [Token(from, e)] + Scan(s, e)
      case None => Scan(s, from + 1)
  }

  /** Every scanned token is a match of the expression at its start, and
      the tokens come in increasing order without overlapping. */
  lemma ScanFacts(s: string, from: nat)
    requires from <= |s|
    ensures forall k :: 0 <= k < |Scan(s, from)| ==>
      from <= Scan(s, from)[k].start < |s| && MatchAt(s, Scan(s, from)[k].start) == Some(Scan(s, from)[k].end)
    ensures forall k, l :: 0 <= k < l < |Scan(s, from)| ==> Scan(s, from)[k].end <= Scan(s, from)[l].start
  {
    ScanMatches(s, from);
    ScanOrdered(s, from);
  }

  lemma {:induction false} ScanMatches(s: string, from: nat)
    requires from <= |s|
    ensures forall k :: 0 <= k < |Scan(s, from)| ==>
      from <= Scan(s, from)[k].start < |s| && MatchAt(s, Scan(s, from)[k].start) == Some(Scan(s, from)[k].end)
    decreases |s| - from
  {
    if from < |s| {
      match MatchAt(s, from)
      case Some(e) =>
        ScanMatches(s, e);
        assert Scan(s, from) == [Token(from, e)] + Scan(s, e);
        MatchesCons(s, from, e, Scan(s, e));
      case None =>
        assert Scan(s, from) == Scan(s, from + 1);
        ScanMatches(s, from + 1);
    }
  }

  /** A match at `from` ending at `e` can be put in front of matches found
      from `e` on. */
  lemma MatchesCons(s: string, from: nat, e: nat, rest: seq<Token>)
    requires from < e <= |s| && MatchAt(s, from) == Some(e)
    requires forall k :: 0 <= k < |rest| ==>
      e <= rest[k].start < |s| && MatchAt(s, rest[k].start) == Some(rest[k].end)
    ensures var ts := [Token(from, e)] + rest;
      forall k :: 0 <= k < |ts| ==> from <= ts[k].start < |s| && MatchAt(s, ts[k].start) == Some(ts[k].end)
  {
    var ts := [Token(from, e)] + rest;
    forall k | 0 <= k < |ts|
      ensures from <= ts[k].start < |s| && MatchAt(s, ts[k].start) == Some(ts[k].end)
    {
      if k > 0 {
        assert ts[k] == rest[k - 1];
      }
    }
  }

  lemma {:induction false} ScanOrdered(s: string, from: nat)
    requires from <= |s|
    ensures forall k, l :: 0 <= k < l < |Scan(s, from)| ==> Scan(s, from)[k].end <= Scan(s, from)[l].start
    decreases |s| - from
  {
    if from < |s| {
      match MatchAt(s, from)
      case Some(e) =>
        ScanMatches(s, e);
        ScanOrdered(s, e);
        assert Scan(s, from) == [Token(from, e)] + Scan(s, e);
        OrderedCons(Token(from, e), Scan(s, e));
      case None =>
        assert Scan(s, from) == Scan(s, from + 1);
        ScanOrdered(s, from + 1);
    }
  }

  /** A token that ends before every token of an ordered list can be put
      in front of it. */
  lemma OrderedCons(t: Token, rest: seq<Token>)
    requires forall k, l :: 0 <= k < l < |rest| ==> rest[k].end <= rest[l].start
    requires forall k :: 0 <= k < |rest| ==> t.end <= rest[k].start
    ensures forall k, l :: 0 <= k < l < |[t] + rest| ==> ([t] + rest)[k].end <= ([t] + rest)[l].start
  {
    var ts := [t] + rest;
    forall k, l | 0 <= k < l < |ts| ensures ts[k].end <= ts[l].start {
      assert ts[l] == rest[l - 1];
      if k > 0 {
        assert ts[k] == rest[k - 1];
      }
    }
  }

  /** Of two tokens, the earlier one starts and ends before the later. */
  lemma TokensOrdered(s: string, k: nat, l: nat)
    requires k < l < |Tokens(s)|
    ensures Tokens(s)[k].start < Tokens(s)[l].start && Tokens(s)[k].end < Tokens(s)[l].end
  {
    ScanFacts(s, 0);
  }

  /** The tokens of a description. */
  function Tokens(s: string): seq<Token> {
    Scan(s, 0)
  }

  /** Some token of `ts` covers position `p`. */
  predicate Covers(ts: seq<Token>, p: nat) {
    exists k :: 0 <= k < |ts| && ts[k].start <= p < ts[k].end
  }

  /** Every position from which the expression matches lies inside some
      scanned token, so no match is skipped and the scan has no choice: it is
      the leftmost-first, non-overlapping sequence of matches. */
  lemma {:induction false} ScanCoversEveryMatch(s: string, from: nat, p: nat)
    requires from <= p < |s| && MatchAt(s, p).Some?
    ensures Covers(Scan(s, from), p)
    decreases |s| - from
  {
    match MatchAt(s, from)
    case Some(e) =>
      var t := Token(from, e);
      assert Scan(s, from) == [t] + Scan(s, e);
      if p >= e {
        ScanCoversEveryMatch(s, e, p);
        CoversCons(t, Scan(s, e), p);
      } else {
        assert ([t] + Scan(s, e))[0] == t;
      }
    case None =>
      assert p != from;
      ScanCoversEveryMatch(s, from + 1, p);
  }

  lemma CoversCons(t: Token, ts: seq<Token>, p: nat)
    requires Covers(ts, p)
    ensures Covers([t] + ts, p)
  {
    var k :| 0 <= k < |ts| && ts[k].start <= p < ts[k].end;
    assert ([t] + ts)[k + 1] == ts[k];
  }

  /** Every scanned token is a token text, taken as long as possible. */
  lemma TokensAreTokenTexts(s: string, t: Token)
    requires t in Tokens(s)
    ensures t.start < t.end <= |s|
    ensures IsTokenText(s[t.start..t.end])
    ensures forall e :: t.start <= e <= |s| && IsTokenText(s[t.start..e]) ==> e <= t.end
  {
    ScanFacts(s, 0);
    var k :| 0 <= k < |Tokens(s)| && Tokens(s)[k] == t;
    MatchIsLongestToken(s, t.start);
  }

  // ---------------------------------------------------------------------
  // The key handler
  // ---------------------------------------------------------------------

  /** The `key` of the keydown event: the handler only tells Backspace and
      Delete apart from every other key. */
  datatype Keystroke = Backspace | Delete | OtherKey

  /** The new value of the description and the new cursor position. */
  datatype Edit = Edit(value: string, cursor: nat)

  /** The cursor sits at the boundary of `t` that `key` would delete into. */
  predicate AtBoundary(t: Token, cursor: nat, key: Keystroke) {
    (key.Backspace? && cursor == t.end) || (key.Delete? && cursor == t.start)
  }

  /** The first token, in scan order, at whose boundary the cursor sits. */
  function FirstAtBoundary(ts: seq<Token>, cursor: nat, key: Keystroke): (r: Option<Token>)
    ensures r.Some? ==> r.value in ts && AtBoundary(r.value, cursor, key)
    ensures r.None? ==> forall t :: t in ts ==> !AtBoundary(t, cursor, key)
  {
    if |ts| == 0 then None
    else if AtBoundary(ts[0], cursor, key) then Some(ts[0])
    else FirstAtBoundary(ts[1..], cursor, key)
  }

  /** `edit` is `value` with the range of `t` cut out and the cursor at the
      start of that range. */
  predicate Removes(value: string, t: Token, edit: Edit) {
    && t.start < t.end <= |value|
    && edit == Edit(value[..t.start] + value[t.end..], t.start)
  }

  /** `handleDescriptionKeyDown` without the event plumbing: `None` lets the
      key take its ordinary effect, `Some(edit)` replaces it. */
  function HandleDeletionKey(value: string, cursor: nat, key: Keystroke): (r: Option<Edit>)
    ensures key.OtherKey? ==> r.None?
    ensures r.None? <==> forall t :: t in Tokens(value) ==> !AtBoundary(t, cursor, key)
    ensures r.Some? ==>
      (exists t :: t in Tokens(value) && AtBoundary(t, cursor, key) && Removes(value, t, r.value))
  {
    if key.OtherKey? then None
    else
      match FirstAtBoundary(Tokens(value), cursor, key)
      case None => None
      case Some(t) =>
        TokensAreTokenTexts(value, t);
        Some(Edit(value[..t.start] + value[t.end..], t.start))
  }

  /** Tokens do not overlap, so at most one of them has its end (for
      Backspace) or its start (for Delete) at the cursor: "the first token
      at the cursor" is "the token at the cursor". */
  lemma BoundaryTokenUnique(value: string, cursor: nat, key: Keystroke, t1: Token, t2: Token)
    requires t1 in Tokens(value) && t2 in Tokens(value)
    requires AtBoundary(t1, cursor, key) && AtBoundary(t2, cursor, key)
    ensures t1 == t2
  {
    var ts := Tokens(value);
    var k :| 0 <= k < |ts| && ts[k] == t1;
    var l :| 0 <= l < |ts| && ts[l] == t2;
    if k < l {
      TokensOrdered(value, k, l);
    } else if l < k {
      TokensOrdered(value, l, k);
    }
  }

  /** A replaced keystroke removes one whole token and nothing else: the old
      value is the new value with a token text put back at the cursor. */
  lemma DeletionRemovesWholeToken(value: string, cursor: nat, key: Keystroke)
    requires HandleDeletionKey(value, cursor, key).Some?
    ensures var e := HandleDeletionKey(value, cursor, key).value;
      e.cursor <= |e.value| &&
      exists w :: IsTokenText(w) && value == e.value[..e.cursor] + w + e.value[e.cursor..]
  {
    var e := HandleDeletionKey(value, cursor, key).value;
    var t :| t in Tokens(value) && AtBoundary(t, cursor, key) && Removes(value, t, e);
    CutIsToken(value, t, e);
  }

  lemma CutIsToken(value: string, t: Token, e: Edit)
    requires t in Tokens(value) && Removes(value, t, e)
    ensures e.cursor <= |e.value|
    ensures IsTokenText(value[t.start..t.end])
    ensures value == e.value[..e.cursor] + value[t.start..t.end] + e.value[e.cursor..]
  {
    TokensAreTokenTexts(value, t);
    assert e.value[..e.cursor] == value[..t.start];
    assert e.value[e.cursor..] == value[t.end..];
    assert value == value[..t.start] + value[t.start..t.end] + value[t.end..];
  }

  /** A tail with neither digits nor placeholders holds no token. */
  lemma {:induction false} NoTokenWithoutOperands(s: string, p: nat)
    requires p <= |s|
    requires forall q :: p <= q < |s| ==> !IsDigit(s[q]) && s[q] != 'Y'
    ensures Scan(s, p) == []
    decreases |s| - p
  {
    if p < |s| {
      assert MatchAt(s, p).None?;
      NoTokenWithoutOperands(s, p + 1);
    }
  }

  /** "Take 1/1 tablet": Backspace right after the token (offset 8) removes
      all of "1/1" and puts the cursor where it started; one position further
      on (offset 9, after the following space) the key is left alone. */
  lemma BackspaceAfterToken(s: string)
    requires s == "Take 1/1 tablet"
    ensures HandleDeletionKey(s, 8, Backspace) == Some(Edit("Take  tablet", 5))
    ensures HandleDeletionKey(s, 9, Backspace) == None
  {
    TabletTokens(s);
    assert FirstAtBoundary(Tokens(s), 8, Backspace) == Some(Token(5, 8));
    assert s[..5] + s[8..] == "Take  tablet";
  }

  lemma TabletTokens(s: string)
    requires s == "Take 1/1 tablet"
    ensures Tokens(s) == [Token(5, 8)]
  {
    forall q | 0 <= q < 5 ensures MatchAt(s, q).None? {
      assert s[q] == "Take "[q];
    }
    ScanSkips(s, 0, 5);
    TabletMatch(s);
    NoTokenInTablet(s);
    assert Scan(s, 5) == [Token(5, 8)] + Scan(s, 8);
  }

  lemma TabletMatch(s: string)
    requires s == "Take 1/1 tablet"
    ensures MatchAt(s, 5) == Some(8)
  {
    assert s[5] == '1' && s[6] == '/' && s[7] == '1' && s[8] == ' ';
    assert DigitRun(s, 5) == 1;
    assert DigitRun(s, 7) == 1;
  }

  /** Positions where the expression does not match are stepped over. */
  lemma {:induction false} ScanSkips(s: string, from: nat, to: nat)
    requires from <= to <= |s|
    requires forall q :: from <= q < to ==> MatchAt(s, q).None?
    ensures Scan(s, from) == Scan(s, to)
    decreases |s| - from
  {
    if from < to {
      ScanSkips(s, from + 1, to);
    }
  }

  lemma NoTokenInTablet(s: string)
    requires s == "Take 1/1 tablet"
    ensures Scan(s, 8) == []
  {
    forall q | 8 <= q < |s| ensures !IsDigit(s[q]) && s[q] != 'Y' {
      assert s[q] == " tablet"[q - 8];
    }
    NoTokenWithoutOperands(s, 8);
  }
}
