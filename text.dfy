/**
 The string operations the tracker relies on: JavaScript's `trim`, the
 whitespace split `split(/\s+/)`, `join(" ")`, ASCII case mapping,
 `startsWith` (Dafny's prefix operator `<=`) and the decimal rendering of a
 timestamp used to build ids.
 */
module Text {

  /** The characters ECMAScript counts as WhiteSpace or LineTerminator
      (the set used by `String.prototype.trim` and by `\s`). */
  predicate IsSpace(c: char)
  {
    || c == ' ' || c == '\t' || c == '\n' || c == '\r' || c == '\U{000B}' || c == '\U{000C}'
    || c == '\U{00A0}' || c == '\U{1680}' || ('\U{2000}' <= c <= '\U{200A}')
    || c == '\U{2028}' || c == '\U{2029}' || c == '\U{202F}' || c == '\U{205F}'
    || c == '\U{3000}' || c == '\U{FEFF}'
  }

  predicate NoSpace(s: string)
  {
    forall i :: 0 <= i < |s| ==> !IsSpace(s[i])
  }

  /** Neither starts nor ends with whitespace. */
  predicate Trimmed(s: string)
  {
    s == [] || (!IsSpace(s[0]) && !IsSpace(s[|s| - 1]))
  }

  /** Leading whitespace removed. */
  function TrimStart(s: string): (r: string)
    ensures |r| <= |s| && r == s[|s| - |r|..]
    ensures forall i :: 0 <= i < |s| - |r| ==> IsSpace(s[i])
    ensures r == [] || !IsSpace(r[0])
    decreases |s|
  {
    if s != [] && IsSpace(s[0]) then TrimStart(s[1..]) else s
  }

  /** Trailing whitespace removed. */
  function TrimEnd(s: string): (r: string)
    ensures |r| <= |s| && r == s[..|r|]
    ensures forall i :: |r| <= i < |s| ==> IsSpace(s[i])
    ensures r == [] || !IsSpace(r[|r| - 1])
    decreases |s|
  {
    if s != [] && IsSpace(s[|s| - 1]) then TrimEnd(s[..|s| - 1]) else s
  }

  /** `r` is the slice of `s` that starts at `i`, and every character of `s`
      outside that slice is whitespace. */
  predicate SpaceAround(s: string, i: nat, r: string)
  {
    && i + |r| <= |s| && r == s[i..i + |r|]
    && (forall k :: 0 <= k < i ==> IsSpace(s[k]))
    && (forall k :: i + |r| <= k < |s| ==> IsSpace(s[k]))
  }

  /** `String.prototype.trim`: the input with its leading and trailing
      whitespace, and nothing else, removed. */
  function Trim(s: string): (r: string)
    ensures Trimmed(r)
    ensures |r| <= |s|
    ensures r == [] <==> forall i :: 0 <= i < |s| ==> IsSpace(s[i])
  {
    var t := TrimStart(s);
    var r := TrimEnd(t);
    TrimEmpty(s, t, r);
    r
  }

  /** What `trim` removes is whitespace and nothing else: the result is a
      slice of the input with only whitespace around it. With `Trimmed`,
      this fixes the result. */
  lemma TrimRemovesOnlySpace(s: string)
    ensures exists i :: SpaceAround(s, i, Trim(s))
  {
    var t := TrimStart(s);
    var r := TrimEnd(t);
    assert Trim(s) == r;
    TrimAround(s, t, r);
    assert SpaceAround(s, |s| - |t|, Trim(s));
  }

  /** A whitespace prefix removed from `s`, then a whitespace suffix from
      what remains, leaves a slice with only whitespace around it. */
  lemma TrimAround(s: string, t: string, r: string)
    requires |t| <= |s| && t == s[|s| - |t|..]
    requires forall k :: 0 <= k < |s| - |t| ==> IsSpace(s[k])
    requires |r| <= |t| && r == t[..|r|]
    requires forall k :: |r| <= k < |t| ==> IsSpace(t[k])
    ensures SpaceAround(s, |s| - |t|, r)
  {
    var i := |s| - |t|;
    forall k | i + |r| <= k < |s| ensures IsSpace(s[k]) {
      assert s[k] == t[k - i];
    }
  }

  /** When both removals stop at a non-whitespace character, the result is
      trimmed, and it is empty exactly when all of `s` is whitespace. */
  lemma TrimEmpty(s: string, t: string, r: string)
    requires |t| <= |s| && t == s[|s| - |t|..]
    requires forall k :: 0 <= k < |s| - |t| ==> IsSpace(s[k])
    requires t == [] || !IsSpace(t[0])
    requires |r| <= |t| && r == t[..|r|]
    requires forall k :: |r| <= k < |t| ==> IsSpace(t[k])
    requires r == [] || !IsSpace(r[|r| - 1])
    ensures Trimmed(r)
    ensures r == [] <==> forall k :: 0 <= k < |s| ==> IsSpace(s[k])
  {
    assert r != [] ==> r[0] == t[0];
    assert r == [] ==> t == [];
  }

  /** Trimming an already trimmed string changes nothing, so `trim` is idempotent. */
  lemma TrimOfTrimmed(s: string)
    requires Trimmed(s)
    ensures Trim(s) == s
  {
  }

  lemma TrimIdempotent(s: string)
    ensures Trim(Trim(s)) == Trim(s)
  {
    TrimOfTrimmed(Trim(s));
  }

  function LowerChar(c: char): (d: char)
    ensures IsSpace(d) <==> IsSpace(c)
  {
    if 'A' <= c <= 'Z' then (c as int + 32) as char else c
  }

  function UpperChar(c: char): (d: char)
    ensures IsSpace(d) <==> IsSpace(c)
  {
    if 'a' <= c <= 'z' then (c as int - 32) as char else c
  }

  /** `toLowerCase`, on the ASCII letters. */
  function Lower(s: string): (r: string)
    ensures |r| == |s| && forall i :: 0 <= i < |s| ==> r[i] == LowerChar(s[i])
  {
    seq(|s|, i requires 0 <= i < |s| => LowerChar(s[i]))
  }

  /** `word.charAt(0).toUpperCase() + word.slice(1)`. */
  function Capitalize(w: string): (r: string)
    ensures |r| == |w|
    ensures w != [] ==> r[0] == UpperChar(w[0]) && r[1..] == w[1..]
  {
    if w == [] then [] else [UpperChar(w[0])] + w[1..]
  }

  /** Number of leading non-whitespace characters. */
  function WordLength(s: string): (n: nat)
    ensures n <= |s| && NoSpace(s[..n]) && (n < |s| ==> IsSpace(s[n]))
  {
    if s == [] || IsSpace(s[0]) then 0
    else
      var m := WordLength(s[1..]);
      assert s[..m + 1] == [s[0]] + s[1..][..m];
      m + 1
  }

  /** Number of leading whitespace characters. */
  function SpaceLength(s: string): (n: nat)
    ensures n <= |s| && (forall i :: 0 <= i < n ==> IsSpace(s[i])) && (n < |s| ==> !IsSpace(s[n]))
  {
    if s == [] || !IsSpace(s[0]) then 0 else SpaceLength(s[1..]) + 1
  }

  /** `s.split(/\s+/)`: the pieces between maximal runs of whitespace, with an
      empty first (last) piece when `s` starts (ends) with whitespace. */
  function SplitSpaces(s: string): (ws: seq<string>)
    ensures |ws| >= 1
    ensures forall i :: 0 <= i < |ws| ==> NoSpace(ws[i])
    decreases |s|
  {
    var i := WordLength(s);
    if i == |s| then [s]
    else
      var rest := s[i..];
      [s[..i]] + SplitSpaces(rest[SpaceLength(rest)..])
  }

  /** `ws.join(" ")`. */
  function JoinSpaces(ws: seq<string>): string
    requires |ws| >= 1
  {
    if |ws| == 1 then ws[0] else ws[0] + " " + JoinSpaces(ws[1..])
  }

  /** Splitting a trimmed, non-empty string yields only non-empty words. */
  lemma {:induction false} SplitTrimmedWordsNonEmpty(s: string)
    requires s != [] && Trimmed(s)
    ensures forall i :: 0 <= i < |SplitSpaces(s)| ==> SplitSpaces(s)[i] != []
    decreases |s|
  {
    var i := WordLength(s);
    if i < |s| {
      var rest := s[i..];
      var j := SpaceLength(rest);
      assert j < |rest| by { assert !IsSpace(rest[|rest| - 1]); }
      var tail := rest[j..];
      assert tail[|tail| - 1] == s[|s| - 1];
      SplitTrimmedWordsNonEmpty(tail);
      assert SplitSpaces(s) == [s[..i]] + SplitSpaces(tail);
    }
  }

  /** Joining words that are non-empty and free of whitespace, then splitting,
      gives the words back. */
  lemma {:induction false} SplitJoin(ws: seq<string>)
    requires |ws| >= 1
    requires forall i :: 0 <= i < |ws| ==> ws[i] != [] && NoSpace(ws[i])
    ensures SplitSpaces(JoinSpaces(ws)) == ws
    decreases |ws|
  {
    if |ws| == 1 {
      assert ws[0][..|ws[0]|] == ws[0];
    } else {
      var tail := ws[1..];
      assert forall i :: 0 <= i < |tail| ==> tail[i] == ws[i + 1];
      SplitJoin(tail);
      SplitJoinStep(ws[0], tail);
      assert ws == [ws[0]] + tail;
    }
  }

  lemma SplitJoinStep(w: string, tail: seq<string>)
    requires NoSpace(w) && |tail| >= 1 && tail[0] != []
    requires SplitSpaces(JoinSpaces(tail)) == tail
    ensures SplitSpaces(JoinSpaces([w] + tail)) == [w] + tail
  {
    var ws := [w] + tail;
    assert ws[1..] == tail;
    var t := JoinSpaces(tail);
    assert JoinSpaces(ws) == w + " " + t;
    JoinStartsWithFirst(tail);
    SplitAfterSpace(w, t);
  }

  /** A word followed by one space and a string that does not start with
      whitespace splits into that word and the split of the rest. */
  lemma SplitAfterSpace(w: string, t: string)
    requires NoSpace(w) && (t == [] || !IsSpace(t[0]))
    ensures SplitSpaces(w + " " + t) == [w] + SplitSpaces(t)
  {
    var s := w + " " + t;
    WordLengthPrefix(w, " " + t);
    assert s == w + (" " + t);
    assert s[..|w|] == w;
    var rest := s[|w|..];
    assert rest == " " + t;
    assert SpaceLength(rest) == 1;
    assert rest[1..] == t;
  }

  lemma JoinStartsWithFirst(ws: seq<string>)
    requires |ws| >= 1 && ws[0] != []
    ensures |JoinSpaces(ws)| >= 1 && JoinSpaces(ws)[0] == ws[0][0]
  {
    if |ws| > 1 {
      assert JoinSpaces(ws) == ws[0] + " " + JoinSpaces(ws[1..]);
    }
  }

  lemma {:induction false} WordLengthPrefix(w: string, t: string)
    requires NoSpace(w) && t != [] && IsSpace(t[0])
    ensures WordLength(w + t) == |w|
    decreases |w|
  {
    if w != [] {
      var wt := w + t;
      assert wt[0] == w[0] && !IsSpace(wt[0]);
      assert wt[1..] == w[1..] + t;
      WordLengthPrefix(w[1..], t);
      assert WordLength(wt) == WordLength(wt[1..]) + 1;
    } else {
      assert w + t == t;
    }
  }

  function Digit(d: nat): char
    requires d < 10
  {
    "0123456789"[d]
  }

  /** The decimal rendering of a natural number (`${n}` in a template literal). */
  function NatToString(n: nat): (s: string)
    ensures |s| >= 1
    ensures forall i :: 0 <= i < |s| ==> '0' <= s[i] <= '9'
  {
    if n < 10 then [Digit(n)] else NatToString(n / 10) + [Digit(n % 10)]
  }
}
