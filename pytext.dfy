/**
 * The parts of Python's str type the parser relies on: str.isspace (the
 * separator set of split() and strip() without arguments), str.strip,
 * str.split, str.join, str.lower, str.startswith and str.endswith.
 */
module PyText {

  /** str.isspace() on one character: exactly the code points Python 3 treats as whitespace. */
  predicate IsSpace(c: char) {
    ('\t' <= c <= '\r') || ('\U{1C}' <= c <= '\U{1F}') || c == ' ' || c == '\U{85}' || c == '\U{A0}'
    || c == '\U{1680}' || ('\U{2000}' <= c <= '\U{200A}') || c == '\U{2028}' || c == '\U{2029}'
    || c == '\U{202F}' || c == '\U{205F}' || c == '\U{3000}'
  }

  predicate NoSpace(s: string) {
    forall k :: 0 <= k < |s| ==> !IsSpace(s[k])
  }

  /** What str.split() can produce: a non-empty run of non-whitespace characters. */
  predicate IsToken(s: string) {
    |s| > 0 && NoSpace(s)
  }

  predicate AllTokens(ts: seq<string>) {
    forall k :: 0 <= k < |ts| ==> IsToken(ts[k])
  }

  /** str.startswith(p) */
  predicate StartsWith(s: string, p: string) {
    |p| <= |s| && s[..|p|] == p
  }

  /** str.endswith(p) */
  predicate EndsWith(s: string, p: string) {
    |p| <= |s| && s[|s| - |p|..] == p
  }

  /** str.lstrip(): drops the leading whitespace and nothing else. */
  function TrimLeft(s: string): (r: string)
    ensures |r| <= |s| && r == s[|s| - |r|..]
    ensures forall k :: 0 <= k < |s| - |r| ==> IsSpace(s[k])
    ensures r == [] || !IsSpace(r[0])
  {
    if s != [] && IsSpace(s[0]) then TrimLeft(s[1..]) else s
  }

  /** str.rstrip(): drops the trailing whitespace and nothing else. */
  function TrimRight(s: string): (r: string)
    ensures |r| <= |s| && r == s[..|r|]
    ensures forall k :: |r| <= k < |s| ==> IsSpace(s[k])
    ensures r == [] || !IsSpace(r[|r| - 1])
  {
    if s != [] && IsSpace(s[|s| - 1]) then TrimRight(s[..|s| - 1]) else s
  }

  /** s[..a] and s[b..] are whitespace only: what strip() may cut off. */
  predicate SpaceOutside(s: string, a: nat, b: nat)
    requires a <= b <= |s|
  {
    (forall k :: 0 <= k < a ==> IsSpace(s[k])) && (forall k :: b <= k < |s| ==> IsSpace(s[k]))
  }

  /** str.strip(): the middle of s, with only whitespace cut off at either end and none left there. */
  function Strip(s: string): (r: string)
    ensures exists a: nat, b: nat :: a <= b <= |s| && r == s[a..b] && SpaceOutside(s, a, b)
    ensures r == [] || (!IsSpace(r[0]) && !IsSpace(r[|r| - 1]))
  {
    var left := TrimLeft(s);
    var r := TrimRight(left);
    var a := |s| - |left|;
    assert r == s[a..a + |r|] && left == s[a..];
    assert SpaceOutside(s, a, a + |r|) by {
      forall k | a + |r| <= k < |s| ensures IsSpace(s[k]) {
        assert s[k] == left[k - a];
      }
    }
    r
  }

  /** [el.strip() for el in ts] */
  function StripEach(ts: seq<string>): (r: seq<string>)
    ensures |r| == |ts|
  {
    seq(|ts|, k requires 0 <= k < |ts| => Strip(ts[k]))
  }

  /** Length of the run of non-whitespace characters that starts s. */
  function WordLength(s: string): (n: nat)
    ensures n <= |s|
    ensures forall k :: 0 <= k < n ==> !IsSpace(s[k])
    ensures n == |s| || IsSpace(s[n])
  {
    if s == [] || IsSpace(s[0]) then 0 else 1 + WordLength(s[1..])
  }

  /** str.split() without arguments: the maximal runs of non-whitespace characters, in order. */
  function Split(s: string): (r: seq<string>)
    ensures AllTokens(r)
    decreases |s|
  {
    if s == [] then []
    else if IsSpace(s[0]) then Split(s[1..])
    else
      var n := WordLength(s);
      [s[..n]] + Split(s[n..])
  }

  /** sep.join(ss) */
  function Join(sep: string, ss: seq<string>): string {
    if ss == [] then []
    else if |ss| == 1 then ss[0]
    else ss[0] + sep + Join(sep, ss[1..])
  }

  /** The ASCII part of str.lower(). */
  function LowerChar(c: char): char {
    if 'A' <= c <= 'Z' then (c as int + 32) as char else c
  }

  /** str.lower(), character by character. */
  function Lower(s: string): (r: string)
    ensures |r| == |s|
  {
    seq(|s|, k requires 0 <= k < |s| => LowerChar(s[k]))
  }

  /** Stripping a string that neither starts nor ends with whitespace changes nothing. */
  lemma StripUnpadded(s: string)
    requires s == [] || (!IsSpace(s[0]) && !IsSpace(s[|s| - 1]))
    ensures Strip(s) == s
  {
    assert TrimLeft(s) == s;
  }

  /** Stripping each of the tokens split() returns changes nothing. */
  lemma StripEachTokens(ts: seq<string>)
    requires AllTokens(ts)
    ensures StripEach(ts) == ts
  {
    forall k | 0 <= k < |ts| ensures Strip(ts[k]) == ts[k] {
      StripUnpadded(ts[k]);
    }
  }

  lemma {:induction false} WordLengthOfToken(t: string, x: string)
    requires NoSpace(t)
    requires x == [] || IsSpace(x[0])
    ensures WordLength(t + x) == |t|
    decreases |t|
  {
    if t == [] {
      assert t + x == x;
    } else {
      assert (t + x)[1..] == t[1..] + x;
      WordLengthOfToken(t[1..], x);
    }
  }

  /** Splitting a token followed by whitespace-led text yields the token, then the split of the rest. */
  lemma SplitAfterToken(t: string, x: string)
    requires IsToken(t)
    requires x == [] || IsSpace(x[0])
    ensures Split(t + x) == [t] + Split(x)
  {
    WordLengthOfToken(t, x);
    assert (t + x)[..|t|] == t;
    assert (t + x)[|t|..] == x;
  }

  /** Round trip: splitting the single-space join of tokens gives the tokens back. */
  lemma {:induction false} SplitJoin(ts: seq<string>)
    requires AllTokens(ts)
    ensures Split(Join(" ", ts)) == ts
  {
    if |ts| == 1 {
      SplitAfterToken(ts[0], []);
      assert ts[0] + [] == ts[0];
    } else if |ts| > 1 {
      var rest := Join(" ", ts[1..]);
      assert Join(" ", ts) == ts[0] + (" " + rest);
      SplitAfterToken(ts[0], " " + rest);
      assert (" " + rest)[1..] == rest;
      SplitJoin(ts[1..]);
      assert ts == [ts[0]] + ts[1..];
    }
  }

  /** The single-space join of tokens starts and ends with a token character. */
  lemma {:induction false} JoinEdges(ts: seq<string>)
    requires AllTokens(ts)
    ensures var j := Join(" ", ts); j == [] <==> ts == []
    ensures ts != [] ==> Join(" ", ts)[0] == ts[0][0]
    ensures ts != [] ==> var j := Join(" ", ts); var l := ts[|ts| - 1]; j[|j| - 1] == l[|l| - 1]
  {
    if |ts| > 1 {
      var rest := ts[1..];
      JoinEdges(rest);
      var j := Join(" ", ts);
      assert j == ts[0] + " " + Join(" ", rest);
      assert rest[|rest| - 1] == ts[|ts| - 1];
    }
  }

  /** Stripping the single-space join of tokens changes nothing. */
  lemma StripJoin(ts: seq<string>)
    requires AllTokens(ts)
    ensures Strip(Join(" ", ts)) == Join(" ", ts)
  {
    JoinEdges(ts);
    StripUnpadded(Join(" ", ts));
  }

  // ----- split() as the maximal runs of non-whitespace -----

  predicate AllSpace(w: string) {
    forall k :: 0 <= k < |w| ==> IsSpace(w[k])
  }

  /** gaps[0] + ts[0] + gaps[1] + ... + ts[n - 1] + gaps[n]. */
  function Interleave(gaps: seq<string>, ts: seq<string>): string
    requires |gaps| == |ts| + 1
    decreases |ts|
  {
    if ts == [] then gaps[0] else gaps[0] + ts[0] + Interleave(gaps[1..], ts[1..])
  }

  /** The gaps around n tokens: whitespace only, and not empty between two tokens. */
  predicate Separators(gaps: seq<string>, n: nat) {
    && |gaps| == n + 1
    && (forall i :: 0 <= i < |gaps| ==> AllSpace(gaps[i]))
    && (forall i :: 0 < i < n ==> gaps[i] != [])
  }

  lemma {:induction false} SplitAfterSpace(w: string, x: string)
    requires AllSpace(w)
    ensures Split(w + x) == Split(x)
    decreases |w|
  {
    if w != [] {
      assert (w + x)[1..] == w[1..] + x;
      SplitAfterSpace(w[1..], x);
    } else {
      assert w + x == x;
    }
  }

  /** Tokens laid out between whitespace gaps, non-empty between two tokens, split back into exactly those tokens. */
  lemma {:induction false} SplitOfLayout(gaps: seq<string>, ts: seq<string>)
    requires AllTokens(ts) && Separators(gaps, |ts|)
    ensures Split(Interleave(gaps, ts)) == ts
    decreases |ts|
  {
    if ts == [] {
      SplitAfterSpace(gaps[0], []);
      assert gaps[0] + [] == gaps[0];
    } else {
      var tail := Interleave(gaps[1..], ts[1..]);
      assert Interleave(gaps, ts) == gaps[0] + (ts[0] + tail);
      SplitAfterSpace(gaps[0], ts[0] + tail);
      if ts[1..] != [] {
        assert tail == gaps[1] + ts[1] + Interleave(gaps[2..], ts[2..]);
        assert tail[0] == gaps[1][0];
      }
      SplitAfterToken(ts[0], tail);
      SplitOfLayout(gaps[1..], ts[1..]);
      assert ts == [ts[0]] + ts[1..];
    }
  }

  lemma InterleaveLeadingGap(p: string, g: seq<string>, ts: seq<string>)
    requires |g| == |ts| + 1
    ensures Interleave([p + g[0]] + g[1..], ts) == p + Interleave(g, ts)
  {
    var gaps := [p + g[0]] + g[1..];
    assert gaps[0] == p + g[0] && gaps[1..] == g[1..];
  }

  lemma InterleaveLeadingToken(t: string, g: seq<string>, ts: seq<string>)
    requires |g| == |ts| + 1
    ensures Interleave([[]] + g, [t] + ts) == t + Interleave(g, ts)
  {
    var gaps := [[]] + g;
    assert gaps[0] == [] && gaps[1..] == g && ([t] + ts)[0] == t && ([t] + ts)[1..] == ts;
  }

  /** Every string is its split() tokens laid out between whitespace gaps that are not empty between two tokens. */
  lemma {:induction false} SplitLayout(s: string) returns (gaps: seq<string>)
    ensures Separators(gaps, |Split(s)|) && s == Interleave(gaps, Split(s))
    decreases |s|
  {
    if s == [] {
      gaps := [[]];
    } else if IsSpace(s[0]) {
      var g := SplitLayout(s[1..]);
      gaps := [[s[0]] + g[0]] + g[1..];
      InterleaveLeadingGap([s[0]], g, Split(s[1..]));
      assert s == [s[0]] + s[1..];
      assert forall i :: 0 < i < |gaps| ==> gaps[i] == g[i];
    } else {
      var n := WordLength(s);
      var rest := s[n..];
      var g := SplitLayout(rest);
      var r := Split(rest);
      gaps := [[]] + g;
      assert Split(s) == [s[..n]] + r;
      InterleaveLeadingToken(s[..n], g, r);
      assert s == s[..n] + rest;
      assert forall i :: 0 < i < |gaps| ==> gaps[i] == g[i - 1];
    }
  }
}
