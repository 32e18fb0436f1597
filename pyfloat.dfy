/**
 * The syntax Python's float() accepts for a string without surrounding
 * whitespace, as a finite automaton read left to right: an optional sign,
 * then "inf", "infinity" or "nan" in any case, or a decimal literal
 * (digits, digits '.', digits '.' digits or '.' digits) with an optional
 * exponent ('e' or 'E', optional sign, digits), where a run of digits may
 * hold single underscores between two digits.  Only the syntax is modelled:
 * a parsed value is kept as the literal it came from.
 */
module PyFloat {
  import opened PyText

  predicate IsDigit(c: char) {
    '0' <= c <= '9'
  }

  /** The automaton's states; Inf(k), Nan(k): the first k letters of "infinity" or "nan" are read. */
  datatype Q =
    | Begin | Signed
    | IntDigits | IntUnderscore
    | DotFirst | Dot | FracDigits | FracUnderscore
    | Exp | ExpSigned | ExpDigits | ExpUnderscore
    | Inf(k: nat) | Nan(k: nat)
    | Reject

  /** The states where a complete literal has been read ("inf" is a prefix of "infinity"). */
  predicate Accepting(q: Q) {
    match q
    case IntDigits => true
    case Dot => true
    case FracDigits => true
    case ExpDigits => true
    case Inf(k) => k == 3 || k == 8
    case Nan(k) => k == 3
    case _ => false
  }

  /** After the sign: a digit, a '.', or the first letter of one of the words. */
  function StartNumber(c: char): Q {
    if IsDigit(c) then IntDigits
    else if c == '.' then DotFirst
    else if LowerChar(c) == 'i' then Inf(1)
    else if LowerChar(c) == 'n' then Nan(1)
    else Reject
  }

  /** Letter k of "infinity". */
  function InfinityLetter(k: nat): char {
    if k == 0 || k == 3 || k == 5 then 'i'
    else if k == 1 || k == 4 then 'n'
    else if k == 2 then 'f'
    else if k == 6 then 't'
    else 'y'
  }

  /** Letter k of "nan". */
  function NanLetter(k: nat): char {
    if k == 1 then 'a' else 'n'
  }

  /** The letter functions spell the two words. */
  lemma LettersSpellWords()
    ensures forall k :: 0 <= k < 8 ==> InfinityLetter(k) == "infinity"[k]
    ensures forall k :: 0 <= k < 3 ==> NanLetter(k) == "nan"[k]
  {
  }

  function Next(q: Q, c: char): Q {
    match q
    case Begin => if c == '+' || c == '-' then Signed else StartNumber(c)
    case Signed => StartNumber(c)
    case IntDigits =>
      if IsDigit(c) then IntDigits else if c == '_' then IntUnderscore
      else if c == '.' then Dot else if c == 'e' || c == 'E' then Exp else Reject
    case IntUnderscore => if IsDigit(c) then IntDigits else Reject
    case DotFirst => if IsDigit(c) then FracDigits else Reject
    case Dot => if IsDigit(c) then FracDigits else if c == 'e' || c == 'E' then Exp else Reject
    case FracDigits =>
      if IsDigit(c) then FracDigits else if c == '_' then FracUnderscore
      else if c == 'e' || c == 'E' then Exp else Reject
    case FracUnderscore => if IsDigit(c) then FracDigits else Reject
    case Exp => if c == '+' || c == '-' then ExpSigned else if IsDigit(c) then ExpDigits else Reject
    case ExpSigned => if IsDigit(c) then ExpDigits else Reject
    case ExpDigits => if IsDigit(c) then ExpDigits else if c == '_' then ExpUnderscore else Reject
    case ExpUnderscore => if IsDigit(c) then ExpDigits else Reject
    case Inf(k) => if k < 8 && LowerChar(c) == InfinityLetter(k) then Inf(k + 1) else Reject
    case Nan(k) => if k < 3 && LowerChar(c) == NanLetter(k) then Nan(k + 1) else Reject
    case Reject => Reject
  }

  /** The state reached after reading s from q. */
  function Read(q: Q, s: string): Q
    decreases |s|
  {
    if s == [] then q else Read(Next(q, s[0]), s[1..])
  }

  /** Once rejected, always rejected. */
  lemma {:induction false} RejectIsFinal(s: string)
    ensures Read(Reject, s) == Reject
    decreases |s|
  {
    if s != [] {
      RejectIsFinal(s[1..]);
    }
  }

  /** float(s) returns rather than raising ValueError. */
  predicate IsFloatLiteral(s: string) {
    Accepting(Read(Begin, s))
  }

  /** HMMER writes scores as fixed-point decimals; float() accepts them. */
  lemma ScoreIsFloat()
    ensures IsFloatLiteral("2.36553") && IsFloatLiteral("-1")
  {
  }

  /** An exponent and digit grouping are accepted too. */
  lemma ExponentAndGroupingAreFloat()
    ensures IsFloatLiteral("1e-3") && IsFloatLiteral("1_000.5")
  {
  }

  /** A bare leading or trailing point is accepted. */
  lemma BarePointIsFloat()
    ensures IsFloatLiteral(".5") && IsFloatLiteral("5.")
  {
  }

  /** The special values are read with a sign and in any case. */
  lemma InfinityIsFloat()
    ensures IsFloatLiteral("-inf")
  {
  }

  lemma NanIsFloat()
    ensures IsFloatLiteral("NaN")
  {
  }

  /** HMMER writes '*' for a zero probability; float() rejects it, and the empty string. */
  lemma StarIsNotFloat()
    ensures !IsFloatLiteral("*") && !IsFloatLiteral("")
  {
  }

  /** A point needs a digit beside it, and an exponent a mantissa. */
  lemma MalformedDecimalsAreNotFloat()
    ensures !IsFloatLiteral(".") && !IsFloatLiteral("1..2") && !IsFloatLiteral("e5")
  {
  }

  /** Underscores only between digits. */
  lemma MalformedGroupsAreNotFloat()
    ensures !IsFloatLiteral("1__0") && !IsFloatLiteral("_1")
  {
  }

  /** One sign, and whole words only. */
  lemma MalformedSignsAndWordsAreNotFloat()
    ensures !IsFloatLiteral("+-1") && !IsFloatLiteral("infin")
  {
  }
}
