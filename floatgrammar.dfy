/**
 * The grammar of the strings float() accepts, as the Python Library Reference
 * gives it under the built-in function float():
 *
 *   floatvalue    ::= [sign] absfloatvalue
 *   absfloatvalue ::= floatnumber | "inf" | "infinity" | "nan"   (any case)
 *   floatnumber   ::= number [exponent]
 *   number        ::= [digitpart] "." digitpart | digitpart ["."]
 *   exponent      ::= ("e" | "E") [sign] digitpart
 *   digitpart     ::= digit (["_"] digit)*
 *   digit         ::= "0" | ... | "9"
 *
 * The last rule is this model's narrowing: the Library Reference's digit is
 * any character of Unicode general category Nd. Then the proof that the
 * automaton of PyFloat accepts exactly these strings.
 */
module FloatGrammar {
  import opened PyText
  import opened PyFloat

  predicate IsSign(c: char) {
    c == '+' || c == '-'
  }

  predicate IsE(c: char) {
    c == 'e' || c == 'E'
  }

  /** digitpart, read from the right: a digit, or a digitpart followed by a digit or by "_" and a digit. */
  predicate DigitPart(w: string)
    decreases |w|
  {
    && |w| > 0 && IsDigit(w[|w| - 1])
    && (|w| == 1 || DigitPart(w[..|w| - 1]) || (|w| >= 3 && w[|w| - 2] == '_' && DigitPart(w[..|w| - 2])))
  }

  /** [digitpart] "." digitpart, with the point at some index i. */
  predicate PointFraction(w: string) {
    exists i :: 0 <= i < |w| && w[i] == '.' && (i == 0 || DigitPart(w[..i])) && DigitPart(w[i + 1..])
  }

  /** number: a fraction with a point, digits with a trailing point, or digits alone. */
  predicate Number(w: string) {
    DigitPart(w) || (|w| > 0 && w[|w| - 1] == '.' && DigitPart(w[..|w| - 1])) || PointFraction(w)
  }

  predicate Exponent(x: string) {
    |x| >= 2 && IsE(x[0]) && (DigitPart(x[1..]) || (IsSign(x[1]) && DigitPart(x[2..])))
  }

  /** A number followed by an exponent. */
  predicate WithExponent(w: string) {
    exists i :: 0 < i < |w| && Number(w[..i]) && Exponent(w[i..])
  }

  predicate FloatNumber(w: string) {
    Number(w) || WithExponent(w)
  }

  predicate AbsFloatValue(w: string) {
    FloatNumber(w) || Lower(w) == "inf" || Lower(w) == "infinity" || Lower(w) == "nan"
  }

  predicate FloatValue(s: string) {
    AbsFloatValue(s) || (|s| > 0 && IsSign(s[0]) && AbsFloatValue(s[1..]))
  }

  // ----- The automaton's states as grammar fragments -----

  /** The strings that lead the automaton from Signed to q, in terms of the grammar. */
  predicate Reached(q: Q, w: string) {
    match q
    case Begin => false
    case Signed => w == []
    case IntDigits => DigitPart(w)
    case IntUnderscore => |w| > 0 && w[|w| - 1] == '_' && DigitPart(w[..|w| - 1])
    case DotFirst => w == "."
    case Dot => |w| > 0 && w[|w| - 1] == '.' && DigitPart(w[..|w| - 1])
    case FracDigits => PointFraction(w)
    case FracUnderscore => |w| > 0 && w[|w| - 1] == '_' && PointFraction(w[..|w| - 1])
    case Exp => |w| > 0 && IsE(w[|w| - 1]) && Number(w[..|w| - 1])
    case ExpSigned => |w| >= 2 && IsSign(w[|w| - 1]) && IsE(w[|w| - 2]) && Number(w[..|w| - 2])
    case ExpDigits => WithExponent(w)
    case ExpUnderscore => |w| > 0 && w[|w| - 1] == '_' && WithExponent(w[..|w| - 1])
    case Inf(k) => 1 <= k <= 8 && |w| == k && forall j :: 0 <= j < k ==> LowerChar(w[j]) == "infinity"[j]
    case Nan(k) => 1 <= k <= 3 && |w| == k && forall j :: 0 <= j < k ==> LowerChar(w[j]) == "nan"[j]
    case Reject => false
  }

  lemma {:induction false} ReadSnoc(q: Q, w: string, c: char)
    ensures Read(q, w + [c]) == Next(Read(q, w), c)
    decreases |w|
  {
    if w == [] {
      assert w + [c] == [c];
    } else {
      assert (w + [c])[1..] == w[1..] + [c];
      ReadSnoc(Next(q, w[0]), w[1..], c);
    }
  }

  lemma DigitPartSnoc(w: string, c: char)
    requires DigitPart(w) && IsDigit(c)
    ensures DigitPart(w + [c])
  {
    assert (w + [c])[..|w|] == w;
  }

  lemma DigitPartUnderscore(w: string, c: char)
    requires DigitPart(w) && IsDigit(c)
    ensures DigitPart(w + ['_'] + [c])
  {
    var x := w + ['_'] + [c];
    assert x[..|x| - 2] == w;
  }

  lemma SliceSnoc(w: string, c: char, i: nat)
    requires i <= |w|
    ensures (w + [c])[..i] == w[..i] && (w + [c])[i..] == w[i..] + [c]
  {
  }

  lemma SliceSnocUnderscore(v: string, c: char, i: nat)
    requires i <= |v|
    ensures (v + ['_'] + [c])[..i] == v[..i] && (v + ['_'] + [c])[i..] == v[i..] + ['_'] + [c]
  {
    SliceSnoc(v, '_', i);
    SliceSnoc(v + ['_'], c, i);
  }

  // ----- One step forward: the automaton's move keeps the grammar fragment -----

  lemma ForwardInt(q: Q, w: string, c: char)
    requires q == Signed || q == IntDigits || q == IntUnderscore
    requires Reached(q, w) && Next(q, c) != Reject
    ensures Reached(Next(q, c), w + [c])
  {
    var w' := w + [c];
    assert w'[..|w'| - 1] == w && w'[|w'| - 1] == c;
    if q == Signed {
      assert w' == [c];
      LettersSpellWords();
    } else if q == IntDigits {
      if IsDigit(c) {
        DigitPartSnoc(w, c);
      }
    } else {
      var v := w[..|w| - 1];
      assert w == v + ['_'];
      DigitPartUnderscore(v, c);
    }
  }

  lemma ForwardPoint(q: Q, w: string, c: char)
    requires q == DotFirst || q == Dot
    requires Reached(q, w) && Next(q, c) != Reject
    ensures Reached(Next(q, c), w + [c])
  {
    var w' := w + [c];
    assert w'[..|w'| - 1] == w && w'[|w'| - 1] == c;
    if IsDigit(c) {
      var i := |w| - 1;
      SliceSnoc(w, c, i + 1);
      assert w'[i + 1..] == [c];
      SliceSnoc(w, c, i);
    }
  }

  lemma ForwardFracDigits(w: string, c: char)
    requires Reached(FracDigits, w) && IsDigit(c)
    ensures Reached(FracDigits, w + [c])
  {
    var i :| 0 <= i < |w| && w[i] == '.' && (i == 0 || DigitPart(w[..i])) && DigitPart(w[i + 1..]);
    SliceSnoc(w, c, i);
    SliceSnoc(w, c, i + 1);
    DigitPartSnoc(w[i + 1..], c);
  }

  lemma ForwardFracUnderscore(w: string, c: char)
    requires Reached(FracUnderscore, w) && IsDigit(c)
    ensures Reached(FracDigits, w + [c])
  {
    var v := w[..|w| - 1];
    assert w == v + ['_'];
    var i :| 0 <= i < |v| && v[i] == '.' && (i == 0 || DigitPart(v[..i])) && DigitPart(v[i + 1..]);
    SliceSnocUnderscore(v, c, i);
    SliceSnocUnderscore(v, c, i + 1);
    DigitPartUnderscore(v[i + 1..], c);
  }

  lemma ForwardFrac(q: Q, w: string, c: char)
    requires q == FracDigits || q == FracUnderscore
    requires Reached(q, w) && Next(q, c) != Reject
    ensures Reached(Next(q, c), w + [c])
  {
    var w' := w + [c];
    assert w'[..|w'| - 1] == w && w'[|w'| - 1] == c;
    if q == FracDigits {
      if IsDigit(c) {
        ForwardFracDigits(w, c);
      }
    } else {
      ForwardFracUnderscore(w, c);
    }
  }

  lemma ForwardExpStart(q: Q, w: string, c: char)
    requires q == Exp || q == ExpSigned
    requires Reached(q, w) && Next(q, c) != Reject
    ensures Reached(Next(q, c), w + [c])
  {
    var w' := w + [c];
    assert w'[..|w'| - 1] == w && w'[|w'| - 1] == c;
    if q == Exp {
      if IsDigit(c) {
        var i := |w| - 1;
        assert w'[..i] == w[..i];
        var x := w'[i..];
        assert x == [w[i], c] && x[1..] == [c];
      } else {
        assert w'[..|w'| - 2] == w[..|w| - 1];
      }
    } else {
      var i := |w| - 2;
      assert w'[..i] == w[..i];
      var x := w'[i..];
      assert x == [w[i], w[i + 1], c] && x[2..] == [c];
    }
  }

  lemma ExponentSnoc(x: string, c: char)
    requires Exponent(x) && IsDigit(c)
    ensures Exponent(x + [c])
  {
    var x' := x + [c];
    assert x'[1..] == x[1..] + [c] && x'[2..] == x[2..] + [c];
    if DigitPart(x[1..]) {
      DigitPartSnoc(x[1..], c);
    } else {
      DigitPartSnoc(x[2..], c);
    }
  }

  lemma ExponentUnderscore(x: string, c: char)
    requires Exponent(x) && IsDigit(c)
    ensures Exponent(x + ['_'] + [c])
  {
    var x' := x + ['_'] + [c];
    assert x'[1..] == x[1..] + ['_'] + [c] && x'[2..] == x[2..] + ['_'] + [c];
    if DigitPart(x[1..]) {
      DigitPartUnderscore(x[1..], c);
    } else {
      DigitPartUnderscore(x[2..], c);
    }
  }

  lemma ForwardExpDigits(q: Q, w: string, c: char)
    requires q == ExpDigits || q == ExpUnderscore
    requires Reached(q, w) && Next(q, c) != Reject
    ensures Reached(Next(q, c), w + [c])
  {
    var w' := w + [c];
    assert w'[..|w'| - 1] == w && w'[|w'| - 1] == c;
    if q == ExpDigits {
      if IsDigit(c) {
        var i :| 0 < i < |w| && Number(w[..i]) && Exponent(w[i..]);
        SliceSnoc(w, c, i);
        ExponentSnoc(w[i..], c);
      }
    } else {
      var v := w[..|w| - 1];
      assert w == v + ['_'];
      var i :| 0 < i < |v| && Number(v[..i]) && Exponent(v[i..]);
      SliceSnocUnderscore(v, c, i);
      ExponentUnderscore(v[i..], c);
    }
  }

  lemma ForwardWord(q: Q, w: string, c: char)
    requires q.Inf? || q.Nan?
    requires Reached(q, w) && Next(q, c) != Reject
    ensures Reached(Next(q, c), w + [c])
  {
    LettersSpellWords();
    var w' := w + [c];
    assert forall j :: 0 <= j < |w| ==> w'[j] == w[j];
    assert w'[|w|] == c;
  }

  lemma Forward(q: Q, w: string, c: char)
    requires Reached(q, w) && Next(q, c) != Reject
    ensures Reached(Next(q, c), w + [c])
  {
    match q
    case Signed => ForwardInt(q, w, c);
    case IntDigits => ForwardInt(q, w, c);
    case IntUnderscore => ForwardInt(q, w, c);
    case DotFirst => ForwardPoint(q, w, c);
    case Dot => ForwardPoint(q, w, c);
    case FracDigits => ForwardFrac(q, w, c);
    case FracUnderscore => ForwardFrac(q, w, c);
    case Exp => ForwardExpStart(q, w, c);
    case ExpSigned => ForwardExpStart(q, w, c);
    case ExpDigits => ForwardExpDigits(q, w, c);
    case ExpUnderscore => ForwardExpDigits(q, w, c);
    case Inf(_) => ForwardWord(q, w, c);
    case Nan(_) => ForwardWord(q, w, c);
  }

  // ----- One step back: a fragment ending in c comes from a fragment the automaton moves on by c -----

  lemma BackwardInt(q: Q, w: string, c: char) returns (p: Q)
    requires q == IntDigits || q == IntUnderscore || q == DotFirst || q == Dot
    requires Reached(q, w + [c])
    ensures Reached(p, w) && Next(p, c) == q
  {
    var w' := w + [c];
    assert w'[..|w'| - 1] == w && w'[|w'| - 1] == c;
    if q == IntDigits {
      if |w'| == 1 {
        p := Signed;
      } else if DigitPart(w) {
        p := IntDigits;
      } else {
        assert w'[..|w'| - 2] == w[..|w| - 1];
        p := IntUnderscore;
      }
    } else if q == DotFirst {
      assert w == [];
      p := Signed;
    } else {
      p := IntDigits;
    }
  }

  lemma SliceAround(a: string, m: char, f: string)
    ensures (a + [m] + f)[..|a|] == a && (a + [m] + f)[|a|] == m && (a + [m] + f)[|a| + 1..] == f
  {
  }

  /** A fraction whose digits end in c, with the point after a. */
  lemma FracStep(a: string, f: string, c: char) returns (p: Q)
    requires (a == [] || DigitPart(a)) && DigitPart(f + [c])
    ensures Reached(p, a + ['.'] + f) && Next(p, c) == FracDigits
  {
    var w := a + ['.'] + f;
    SliceAround(a, '.', f);
    assert (f + [c])[..|f|] == f && (f + [c])[|f|] == c;
    if f == [] {
      assert w == a + ['.'] && w[..|w| - 1] == a;
      p := if a == [] then DotFirst else Dot;
    } else if DigitPart(f) {
      p := FracDigits;
    } else {
      var g := f[..|f| - 1];
      assert (f + [c])[..|f| - 1] == g && f == g + ['_'];
      assert w[..|w| - 1] == a + ['.'] + g;
      SliceAround(a, '.', g);
      p := FracUnderscore;
    }
  }

  lemma SplitAt(w: string, i: nat)
    requires i < |w|
    ensures w == w[..i] + [w[i]] + w[i + 1..]
  {
  }

  /** A fraction ending in c, cut at its point: the digits before it and those between it and c. */
  lemma FracParts(w: string, c: char) returns (a: string, f: string)
    requires PointFraction(w + [c])
    ensures (a == [] || DigitPart(a)) && DigitPart(f + [c]) && w == a + ['.'] + f
  {
    var w' := w + [c];
    var i :| 0 <= i < |w'| && w'[i] == '.' && (i == 0 || DigitPart(w'[..i])) && DigitPart(w'[i + 1..]);
    assert |w'[i + 1..]| > 0;
    SliceSnoc(w, c, i);
    SliceSnoc(w, c, i + 1);
    SplitAt(w, i);
    a := w[..i];
    f := w[i + 1..];
  }

  lemma BackwardFrac(w: string, c: char) returns (p: Q)
    requires Reached(FracDigits, w + [c])
    ensures Reached(p, w) && Next(p, c) == FracDigits
  {
    var a, f := FracParts(w, c);
    p := FracStep(a, f, c);
  }

  predicate ExpPrefix(pre: string) {
    (|pre| == 1 && IsE(pre[0])) || (|pre| == 2 && IsE(pre[0]) && IsSign(pre[1]))
  }

  lemma ExpStepFirst(n: string, pre: string, c: char) returns (p: Q)
    requires Number(n) && |n| > 0 && ExpPrefix(pre) && IsDigit(c)
    ensures Reached(p, n + pre) && Next(p, c) == ExpDigits
  {
    var w := n + pre;
    if |pre| == 1 {
      assert w[..|w| - 1] == n;
      p := Exp;
    } else {
      assert w[..|w| - 2] == n;
      p := ExpSigned;
    }
  }

  lemma ExpStepDigits(n: string, pre: string, d: string)
    requires Number(n) && |n| > 0 && ExpPrefix(pre) && DigitPart(d)
    ensures WithExponent(n + (pre + d))
  {
    var x := pre + d;
    var w := n + x;
    assert w[..|n|] == n && w[|n|..] == x;
    assert x[|pre|..] == d;
    if |pre| == 2 {
      assert x[1] == pre[1];
    }
  }

  /** An exponent whose digits end in c, after the number n and the prefix e or e and a sign. */
  lemma ExpStep(n: string, pre: string, d: string, c: char) returns (p: Q)
    requires Number(n) && |n| > 0 && ExpPrefix(pre)
    requires DigitPart(d + [c])
    ensures Reached(p, n + (pre + d)) && Next(p, c) == ExpDigits
  {
    assert (d + [c])[..|d|] == d && (d + [c])[|d|] == c;
    if d == [] {
      assert pre + d == pre && d + [c] == [c];
      p := ExpStepFirst(n, pre, c);
    } else if DigitPart(d) {
      ExpStepDigits(n, pre, d);
      p := ExpDigits;
    } else {
      var g := d[..|d| - 1];
      assert (d + [c])[..|d| - 1] == g && d == g + ['_'];
      ExpStepDigits(n, pre, g);
      var w := n + (pre + d);
      assert w == n + (pre + g) + ['_'];
      assert w[..|w| - 1] == n + (pre + g);
      p := ExpUnderscore;
    }
  }

  /** Exponent(x + [c]) split into its prefix (e, or e and a sign) and its digits before c. */
  lemma ExponentParts(x: string, c: char) returns (pre: string, d: string)
    requires Exponent(x + [c])
    ensures ExpPrefix(pre)
    ensures DigitPart(d + [c]) && x == pre + d
  {
    var xc := x + [c];
    var o := if DigitPart(xc[1..]) then 1 else 2;
    pre := xc[..o];
    var dc := xc[o..];
    assert |dc| > 0 && dc[|dc| - 1] == c;
    d := dc[..|dc| - 1];
    assert dc == d + [c];
    assert xc == pre + d + [c];
  }

  lemma BackwardExpDigits(w: string, c: char) returns (p: Q)
    requires Reached(ExpDigits, w + [c])
    ensures Reached(p, w) && Next(p, c) == ExpDigits
  {
    var w' := w + [c];
    var i :| 0 < i < |w'| && Number(w'[..i]) && Exponent(w'[i..]);
    assert i < |w| by {
      if i == |w| {
        assert |w'[i..]| == 1;
      }
    }
    SliceSnoc(w, c, i);
    var n := w[..i];
    var x := w[i..];
    assert w == n + x;
    var pre, d := ExponentParts(x, c);
    p := ExpStep(n, pre, d, c);
  }

  lemma BackwardExpStart(q: Q, w: string, c: char) returns (p: Q)
    requires q == Exp || q == ExpSigned || q == ExpUnderscore
    requires Reached(q, w + [c])
    ensures Reached(p, w) && Next(p, c) == q
  {
    var w' := w + [c];
    assert w'[..|w'| - 1] == w && w'[|w'| - 1] == c;
    if q == Exp {
      if DigitPart(w) {
        p := IntDigits;
      } else if |w| > 0 && w[|w| - 1] == '.' && DigitPart(w[..|w| - 1]) {
        p := Dot;
      } else {
        p := FracDigits;
      }
    } else if q == ExpSigned {
      assert w'[..|w'| - 2] == w[..|w| - 1];
      p := Exp;
    } else {
      p := ExpDigits;
    }
  }

  lemma BackwardWord(q: Q, w: string, c: char) returns (p: Q)
    requires q.Inf? || q.Nan?
    requires Reached(q, w + [c])
    ensures Reached(p, w) && Next(p, c) == q
  {
    LettersSpellWords();
    var w' := w + [c];
    assert forall j :: 0 <= j < |w| ==> w'[j] == w[j];
    assert w'[|w|] == c;
    if w == [] {
      p := Signed;
    } else if q.Inf? {
      p := Inf(q.k - 1);
    } else {
      p := Nan(q.k - 1);
    }
  }

  /** The states that read the number before any exponent. */
  predicate IsMantissaState(q: Q) {
    q == IntDigits || q == IntUnderscore || q == DotFirst || q == Dot || q == FracDigits || q == FracUnderscore
  }

  /** A step back into the digits before the exponent. */
  lemma BackwardMantissa(q: Q, w: string, c: char) returns (p: Q)
    requires IsMantissaState(q)
    requires Reached(q, w + [c])
    ensures Reached(p, w) && Next(p, c) == q
  {
    if q == FracDigits {
      p := BackwardFrac(w, c);
    } else if q == FracUnderscore {
      p := FracDigits;
      assert (w + [c])[..|w|] == w;
    } else {
      p := BackwardInt(q, w, c);
    }
  }

  /** A step back into an exponent or a word. */
  lemma BackwardTail(q: Q, w: string, c: char) returns (p: Q)
    requires !IsMantissaState(q)
    requires Reached(q, w + [c])
    ensures Reached(p, w) && Next(p, c) == q
  {
    if q == ExpDigits {
      p := BackwardExpDigits(w, c);
    } else if q.Inf? || q.Nan? {
      p := BackwardWord(q, w, c);
    } else {
      p := BackwardExpStart(q, w, c);
    }
  }

  lemma Backward(q: Q, w: string, c: char) returns (p: Q)
    requires Reached(q, w + [c])
    ensures Reached(p, w) && Next(p, c) == q
  {
    if IsMantissaState(q) {
      p := BackwardMantissa(q, w, c);
    } else {
      p := BackwardTail(q, w, c);
    }
  }

  // ----- The automaton read from Signed reaches q exactly on q's fragment -----

  lemma {:induction false} ReachedSound(w: string)
    ensures Read(Signed, w) != Reject ==> Reached(Read(Signed, w), w)
    decreases |w|
  {
    if w != [] {
      var v := w[..|w| - 1];
      var c := w[|w| - 1];
      assert w == v + [c];
      ReadSnoc(Signed, v, c);
      ReachedSound(v);
      if Read(Signed, w) != Reject {
        Forward(Read(Signed, v), v, c);
      }
    }
  }

  lemma {:induction false} ReachedComplete(q: Q, w: string)
    requires Reached(q, w)
    ensures Read(Signed, w) == q
    decreases |w|
  {
    if w != [] {
      var v := w[..|w| - 1];
      var c := w[|w| - 1];
      assert w == v + [c];
      var p := Backward(q, v, c);
      ReachedComplete(p, v);
      ReadSnoc(Signed, v, c);
    }
  }

  // ----- The automaton and the grammar agree -----

  /** Lower(w) is the word exactly when w, read from Signed, spells all of it. */
  lemma WordReached(w: string)
    ensures Lower(w) == "inf" <==> Reached(Inf(3), w)
    ensures Lower(w) == "infinity" <==> Reached(Inf(8), w)
    ensures Lower(w) == "nan" <==> Reached(Nan(3), w)
  {
    if Reached(Inf(3), w) {
      assert Lower(w) == "inf";
    }
    if Reached(Inf(8), w) {
      assert Lower(w) == "infinity";
    }
    if Reached(Nan(3), w) {
      assert Lower(w) == "nan";
    }
  }

  /** An absfloatvalue is exactly what leads the automaton from Signed to an accepting state. */
  lemma AbsFloatValueAccepted(w: string)
    ensures Accepting(Read(Signed, w)) <==> AbsFloatValue(w)
  {
    var q := Read(Signed, w);
    WordReached(w);
    if AbsFloatValue(w) {
      var q0 :=
        if DigitPart(w) then IntDigits
        else if |w| > 0 && w[|w| - 1] == '.' && DigitPart(w[..|w| - 1]) then Dot
        else if PointFraction(w) then FracDigits
        else if WithExponent(w) then ExpDigits
        else if Lower(w) == "inf" then Inf(3)
        else if Lower(w) == "infinity" then Inf(8)
        else Nan(3);
      ReachedComplete(q0, w);
    }
    if Accepting(q) {
      ReachedSound(w);
    }
  }

  /**
   * float(s) returns, rather than raising ValueError, exactly on the strings
   * of the grammar: the automaton is a decision procedure for floatvalue.
   */
  lemma IsFloatLiteralIffGrammar(s: string)
    ensures IsFloatLiteral(s) <==> FloatValue(s)
  {
    if s != [] {
      assert Read(Begin, s) == Read(Next(Begin, s[0]), s[1..]);
      if IsSign(s[0]) {
        AbsFloatValueAccepted(s[1..]);
        assert Read(Signed, s) == Read(Reject, s[1..]);
        RejectIsFinal(s[1..]);
        AbsFloatValueAccepted(s);
      } else {
        assert Read(Signed, s) == Read(Next(Signed, s[0]), s[1..]);
        AbsFloatValueAccepted(s);
      }
    } else {
      AbsFloatValueAccepted(s);
    }
  }
}
