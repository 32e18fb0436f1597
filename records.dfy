/**
 * The 30-slot row record that ProfileHMM builds for every line of the score
 * table, and what inserting one row does to a profile.
 *
 * Slots: 0 state, 1 mode, 2..21 the emission scores for
 * A C D E F G H I K L M N P Q R S T V W Y, 22..28 the transitions
 * m->m m->i m->d i->m i->i d->m d->d, and 29 rest.
 */
module Records {
  import opened Wrappers
  import opened PyText
  import opened PyFloat

  /** One element of the Python row list: None, a str, a float (kept as its literal) or an int. */
  datatype Field = Null | Text(s: string) | Float(literal: string) | Int(n: int)

  type Row = seq<Field>

  /** The three values of row_mode. */
  datatype RowMode = Match | Insert | Delete

  const Columns: seq<string> := ["state", "mode",
    "A", "C", "D", "E", "F", "G", "H", "I", "K", "L", "M", "N", "P", "Q", "R", "S", "T", "V", "W", "Y",
    "m->m", "m->i", "m->d", "i->m", "i->i", "d->m", "d->d", "rest"]

  const RowWidth: nat := 30
  const EmissionCount: nat := 20
  const TransitionCount: nat := 7

  /**
   * The column list of the DataFrame: the state and mode tags, twenty
   * one-letter amino-acid emission columns, seven "x->y" transition columns and rest.
   */
  lemma ColumnLayout()
    ensures |Columns| == RowWidth == 2 + EmissionCount + TransitionCount + 1
    ensures Columns[0] == "state" && Columns[1] == "mode" && Columns[RowWidth - 1] == "rest"
    ensures forall k :: 2 <= k < 2 + EmissionCount ==> |Columns[k]| == 1
    ensures forall k :: 22 <= k < 22 + TransitionCount ==> |Columns[k]| == 4 && Columns[k][1..3] == "->"
  {
  }

  /** What a delete row holds in a transition slot whose token is missing or not a float. */
  const MissingTransition: Field := Int(-1)

  function ModeName(m: RowMode): string {
    match m
    case Match => "match"
    case Insert => "insert"
    case Delete => "delete"
  }

  /** The row cycle match -> insert -> delete -> match. */
  function NextMode(m: RowMode): RowMode {
    match m
    case Match => Insert
    case Insert => Delete
    case Delete => Match
  }

  /** The mode of the k-th row of a table built by the row cycle from match. */
  function ModeAt(k: nat): RowMode {
    if k % 3 == 0 then Match else if k % 3 == 1 then Insert else Delete
  }

  /** The read_file loop's mode update is one step of the cycle ModeAt follows, and three steps come back. */
  lemma NextModeCycle(k: nat)
    ensures ModeAt(k + 1) == NextMode(ModeAt(k))
    ensures NextMode(NextMode(NextMode(ModeAt(k)))) == ModeAt(k)
  {
  }

  /** The three mode strings are distinct, so the string comparisons on row_mode tell the modes apart. */
  lemma ModeNamesDistinct(m: RowMode, n: RowMode)
    ensures ModeName(m) == ModeName(n) <==> m == n
  {
  }

  /** Python's list.insert(i, x) for a non-negative index: past the end it appends. */
  function ListInsert<T>(s: seq<T>, i: nat, x: T): (r: seq<T>)
    ensures |r| == |s| + 1
    ensures var at := if i <= |s| then i else |s|;
      r[at] == x && r[..at] == s[..at] && r[at + 1..] == s[at..]
  {
    if i <= |s| then s[..i] + [x] + s[i..] else s + [x]
  }

  function Texts(ts: seq<string>): (r: seq<Field>)
    ensures |r| == |ts|
  {
    seq(|ts|, k requires 0 <= k < |ts| => Text(ts[k]))
  }

  /** The strings held by a list of str fields. */
  function Strs(fs: seq<Field>): (r: seq<string>)
    requires forall k :: 0 <= k < |fs| ==> fs[k].Text?
    ensures |r| == |fs|
  {
    seq(|fs|, k requires 0 <= k < |fs| => fs[k].s)
  }

  function Nulls(n: nat): (r: seq<Field>)
    ensures |r| == n
  {
    seq(n, _ => Null)
  }

  /** How many tokens of a normal line come before its 20 emissions: the state index on a match line. */
  function Lead(mode: RowMode): nat {
    if mode == Match then 1 else 0
  }

  /** The state field of a record, or None for an empty list. */
  function StateOf(r: Row): Field {
    if |r| > 0 then r[0] else Null
  }

  /**
   * The record _parse_normal_row returns for a line split into toks, or None
   * when it raises: there are fewer than 20 emission tokens, or one of them is
   * not a float.  A match line's state is its first token; an insert line
   * inherits the profile's current state.
   */
  function NormalRecord(toks: seq<string>, mode: RowMode, inherited: Field): Option<Row>
    requires mode != Delete
  {
    var lead := Lead(mode);
    if |toks| < lead + EmissionCount || exists j :: lead <= j < lead + EmissionCount && !IsFloatLiteral(toks[j]) then
      None
    else
      var state := if mode == Match then Text(toks[0]) else inherited;
      Some([state, Text(ModeName(mode))]
        + seq(EmissionCount, j requires 0 <= j < EmissionCount => Float(toks[lead + j]))
        + Nulls(TransitionCount)
        + [Text(Join("", toks[lead + EmissionCount..]))])
  }

  /** curr_state after _parse_normal_row, which sets it from a match line before any float is parsed. */
  function NormalState(toks: seq<string>, mode: RowMode, inherited: Field): Field {
    if mode == Match && |toks| > 0 then Text(toks[0]) else inherited
  }

  /**
   * parsed in _parse_normal_row after its list insertions: the state, the
   * mode, then the tokens after a match line's state, still as text.
   */
  function Prefixed(toks: seq<string>, mode: RowMode, inherited: Field): (r: seq<Field>)
    requires mode != Delete && (mode == Match ==> |toks| > 0)
    ensures |r| == |toks| - Lead(mode) + 2
    ensures r[0] == (if mode == Match then Text(toks[0]) else inherited)
    ensures r[1] == Text(ModeName(mode))
    ensures forall k :: 2 <= k < |r| ==> r[k] == Text(toks[Lead(mode) + k - 2])
  {
    [if mode == Match then Text(toks[0]) else inherited, Text(ModeName(mode))] + Texts(toks[Lead(mode)..])
  }

  /** Transition slot 22 + i of a delete row: float(toks[i]), or -1 when that raises. */
  function TransitionField(toks: seq<string>, i: nat): Field {
    if i < |toks| && IsFloatLiteral(toks[i]) then Float(toks[i]) else MissingTransition
  }

  /** The record _parse_delete_row returns; it never raises. */
  function DeleteRecord(toks: seq<string>, inherited: Field): Row {
    [inherited, Text(ModeName(Delete))]
      + Nulls(EmissionCount)
      + seq(TransitionCount, i requires 0 <= i < TransitionCount => TransitionField(toks, i))
      + [Null]
  }

  /**
   * The table schema every record meets: 30 slots, the mode tag in slot 1,
   * emissions present and transitions None on match and insert rows, and the
   * other way round (a float or the -1 sentinel) on delete rows, whose rest is None.
   */
  predicate IsRecordOf(r: Row, mode: RowMode) {
    |r| == RowWidth && r[1] == Text(ModeName(mode)) &&
    if mode == Delete then
      (forall k :: 2 <= k < 22 ==> r[k] == Null)
      && (forall k :: 22 <= k < 29 ==> r[k].Float? || r[k] == MissingTransition)
      && r[29] == Null
    else
      (forall k :: 2 <= k < 22 ==> r[k].Float?)
      && (forall k :: 22 <= k < 29 ==> r[k] == Null)
      && r[29].Text?
  }

  /**
   * A table as the row cycle builds it: row k is a record of mode ModeAt(k),
   * and an insert or delete row carries the state of the match row that opens its triple.
   */
  predicate TableWF(t: seq<Row>) {
    (forall k :: 0 <= k < |t| ==> IsRecordOf(t[k], ModeAt(k)))
    && (forall k :: 0 <= k < |t| && k % 3 != 0 ==> StateOf(t[k]) == StateOf(t[k - k % 3]))
  }

  /** A profile's table and its curr_state. */
  datatype ProfileVal = ProfileVal(table: seq<Row>, currState: Field)

  /** A freshly constructed ProfileHMM. */
  const NewProfile: ProfileVal := ProfileVal([], Null)

  /**
   * insert_row(line, mode): whether it returned (false: the row parser raised)
   * and the profile afterwards.
   */
  function Inserted(p: ProfileVal, line: string, mode: RowMode): (bool, ProfileVal) {
    var toks := Split(line);
    if mode == Delete then
      (true, p.(table := p.table + [DeleteRecord(toks, p.currState)]))
    else
      var cs := NormalState(toks, mode, p.currState);
      match NormalRecord(toks, mode, p.currState)
      case None => (false, p.(currState := cs))
      case Some(row) => (true, ProfileVal(p.table + [row], cs))
  }

  /** A profile in the middle of the row cycle: its next row has mode m and curr_state is its triple's state. */
  predicate ProfileInv(p: ProfileVal, m: RowMode) {
    var n := |p.table|;
    TableWF(p.table) && ModeAt(n) == m && (n % 3 != 0 ==> p.currState == StateOf(p.table[n - n % 3]))
  }

  // ----- Properties of the row builders -----

  /** A normal line parses exactly when it has 20 emission tokens that are all floats; then the record fits the schema. */
  lemma NormalRecordOk(toks: seq<string>, mode: RowMode, inherited: Field)
    requires mode != Delete
    ensures var lead := Lead(mode);
      NormalRecord(toks, mode, inherited).Some? <==>
        (|toks| >= lead + 20 && forall j :: lead <= j < lead + 20 ==> IsFloatLiteral(toks[j]))
    ensures NormalRecord(toks, mode, inherited).Some? ==>
      var r := NormalRecord(toks, mode, inherited).value;
      IsRecordOf(r, mode) && StateOf(r) == NormalState(toks, mode, inherited)
  {
  }

  /** Slot by slot, a normal record holds the state, the mode, the 20 emissions in order and the joined rest. */
  lemma NormalRecordSlots(toks: seq<string>, mode: RowMode, inherited: Field)
    requires mode != Delete
    requires NormalRecord(toks, mode, inherited).Some?
    ensures var r := NormalRecord(toks, mode, inherited).value; var lead := Lead(mode);
      |r| == 30 && r[0] == (if mode == Match then Text(toks[0]) else inherited)
      && (forall k :: 2 <= k < 22 ==> r[k] == Float(toks[lead + k - 2]))
      && r[29] == Text(Join("", toks[lead + 20..]))
  {
    var lead := Lead(mode);
    var head: seq<Field> := [if mode == Match then Text(toks[0]) else inherited, Text(ModeName(mode))];
    var ems := seq(EmissionCount, j requires 0 <= j < EmissionCount => Float(toks[lead + j]));
    var r := NormalRecord(toks, mode, inherited).value;
    assert r == head + ems + Nulls(TransitionCount) + [Text(Join("", toks[lead + EmissionCount..]))];
    forall k | 2 <= k < 22 ensures r[k] == Float(toks[lead + k - 2]) {
      assert r[k] == ems[k - 2];
    }
  }

  /** The list insertions of _parse_normal_row build the prefixed list: the inherited state in front of an insert line, then the mode at index 1. */
  lemma PrefixedByInsertion(toks: seq<string>, mode: RowMode, inherited: Field)
    requires mode != Delete && (mode == Match ==> |toks| > 0)
    ensures Prefixed(toks, mode, inherited)
      == ListInsert(if mode == Insert then ListInsert(Texts(toks), 0, inherited) else Texts(toks), 1, Text(ModeName(mode)))
  {
    var front := if mode == Insert then ListInsert(Texts(toks), 0, inherited) else Texts(toks);
    assert front == [if mode == Match then Text(toks[0]) else inherited] + Texts(toks[Lead(mode)..]);
  }

  /** _parse_normal_row gets past its float loop exactly when slots 2..21 of the prefixed list exist and are float literals. */
  lemma NormalRecordParses(toks: seq<string>, mode: RowMode, inherited: Field)
    requires mode != Delete && (mode == Match ==> |toks| > 0)
    ensures var s := Prefixed(toks, mode, inherited);
      NormalRecord(toks, mode, inherited).Some? <==> |s| >= 22 && forall k :: 2 <= k < 22 ==> IsFloatLiteral(s[k].s)
  {
    var s := Prefixed(toks, mode, inherited);
    var lead := Lead(mode);
    if |s| >= 22 && forall k :: 2 <= k < 22 ==> IsFloatLiteral(s[k].s) {
      forall j | lead <= j < lead + EmissionCount ensures IsFloatLiteral(toks[j]) {
        assert s[j - lead + 2] == Text(toks[j]);
      }
    } else if |toks| >= lead + EmissionCount {
      var k :| 2 <= k < 22 && !IsFloatLiteral(s[k].s);
      assert s[k] == Text(toks[lead + k - 2]);
    }
  }

  /**
   * The record built slot by slot from the prefixed list with slots 2..21
   * converted: those 22 slots, seven Nones and the text slots after them joined.
   */
  lemma NormalRecordBySlots(toks: seq<string>, mode: RowMode, inherited: Field, slots: seq<Field>)
    requires mode != Delete && (mode == Match ==> |toks| > 0)
    requires NormalRecord(toks, mode, inherited).Some?
    requires var s := Prefixed(toks, mode, inherited);
      |slots| == |s|
      && (forall k :: 0 <= k < |s| && !(2 <= k < 22) ==> slots[k] == s[k])
      && (forall k :: 2 <= k < 22 && k < |s| ==> slots[k] == Float(s[k].s))
    ensures |slots| >= 22 && forall k :: 22 <= k < |slots| ==> slots[k].Text?
    ensures NormalRecord(toks, mode, inherited).value
      == slots[..22] + Nulls(TransitionCount) + [Text(Join("", Strs(slots[22..])))]
  {
    var s := Prefixed(toks, mode, inherited);
    var lead := Lead(mode);
    var ems := seq(EmissionCount, j requires 0 <= j < EmissionCount => Float(toks[lead + j]));
    var state := if mode == Match then Text(toks[0]) else inherited;
    assert slots[..22] == [state, Text(ModeName(mode))] + ems by {
      forall k | 2 <= k < 22 ensures slots[k] == ems[k - 2] {
        assert s[k] == Text(toks[lead + k - 2]);
      }
    }
    assert Strs(slots[22..]) == toks[lead + EmissionCount..];
  }

  /** A delete record fits the schema, inherits the current state and holds float(toks[i]) or -1 in slot 22 + i. */
  lemma DeleteRecordSlots(toks: seq<string>, inherited: Field)
    ensures var r := DeleteRecord(toks, inherited);
      IsRecordOf(r, Delete) && StateOf(r) == inherited
      && forall i :: 0 <= i < 7 ==>
        r[22 + i] == (if i < |toks| && IsFloatLiteral(toks[i]) then Float(toks[i]) else Int(-1))
  {
  }

  /** The schema's null pattern: emissions are all None exactly on delete rows, transitions exactly on the others. */
  lemma NullPattern(r: Row, mode: RowMode)
    requires IsRecordOf(r, mode)
    ensures (forall k :: 2 <= k < 22 ==> r[k] == Null) <==> mode == Delete
    ensures (forall k :: 22 <= k < 29 ==> r[k] == Null) <==> mode != Delete
  {
    if mode == Delete {
      assert r[22] != Null;
    } else {
      assert r[2] != Null;
    }
  }

  /** insert_row appends exactly one record when it returns and changes the table not at all when it raises; delete rows never raise. */
  lemma InsertedAppends(p: ProfileVal, line: string, mode: RowMode)
    ensures var (ok, q) := Inserted(p, line, mode);
      (mode == Delete ==> ok)
      && (ok ==> |q.table| == |p.table| + 1 && q.table[..|p.table|] == p.table
                 && IsRecordOf(q.table[|p.table|], mode))
      && (!ok ==> q.table == p.table)
  {
    var toks := Split(line);
    if mode == Delete {
      DeleteRecordSlots(toks, p.currState);
    } else {
      NormalRecordOk(toks, mode, p.currState);
    }
  }

  /** A record of the mode the cycle expects next keeps every row of the table a record of its mode. */
  lemma AppendKeepsRecords(t: seq<Row>, row: Row)
    requires forall k :: 0 <= k < |t| ==> IsRecordOf(t[k], ModeAt(k))
    requires IsRecordOf(row, ModeAt(|t|))
    ensures var u := t + [row]; forall k :: 0 <= k < |u| ==> IsRecordOf(u[k], ModeAt(k))
  {
    var u := t + [row];
    forall k | 0 <= k < |u| ensures IsRecordOf(u[k], ModeAt(k)) {
      if k < |t| {
        assert u[k] == t[k];
      }
    }
  }

  /** A row carrying the state of the match row that opens its triple keeps the states inherited. */
  lemma AppendKeepsStates(t: seq<Row>, row: Row)
    requires forall k :: 0 <= k < |t| && k % 3 != 0 ==> StateOf(t[k]) == StateOf(t[k - k % 3])
    requires |t| % 3 != 0 ==> StateOf(row) == StateOf(t[|t| - |t| % 3])
    ensures var u := t + [row]; forall k :: 0 <= k < |u| && k % 3 != 0 ==> StateOf(u[k]) == StateOf(u[k - k % 3])
  {
    var u := t + [row];
    var n := |t|;
    forall k | 0 <= k < |u| && k % 3 != 0
      ensures StateOf(u[k]) == StateOf(u[k - k % 3])
    {
      if k < n {
        assert u[k] == t[k] && u[k - k % 3] == t[k - k % 3];
      } else {
        assert u[n - n % 3] == t[n - n % 3];
      }
    }
  }

  /** Appending a record of the cycle's next mode, with curr_state maintained, keeps a profile in the cycle. */
  lemma {:induction false} AppendKeepsInv(p: ProfileVal, row: Row, cs: Field, mode: RowMode)
    requires ProfileInv(p, mode)
    requires IsRecordOf(row, mode)
    requires mode == Match ==> cs == StateOf(row)
    requires mode != Match ==> cs == p.currState && StateOf(row) == p.currState
    ensures ProfileInv(ProfileVal(p.table + [row], cs), NextMode(mode))
  {
    var t := p.table + [row];
    var n := |p.table|;
    assert mode == Match <==> n % 3 == 0;
    AppendKeepsRecords(p.table, row);
    AppendKeepsStates(p.table, row);
    var m := n + 1;
    assert ModeAt(m) == NextMode(mode);
    if m % 3 != 0 {
      if mode == Match {
        assert m - m % 3 == n && t[n] == row;
      } else {
        assert m - m % 3 == n - n % 3;
        assert t[n - n % 3] == p.table[n - n % 3];
      }
    }
  }

  /** Appending the next row of the cycle keeps the table well formed and moves the cycle on. */
  lemma InsertedKeepsInv(p: ProfileVal, line: string, mode: RowMode)
    requires ProfileInv(p, mode)
    ensures var (ok, q) := Inserted(p, line, mode);
      ok ==> ProfileInv(q, NextMode(mode))
  {
    var toks := Split(line);
    if mode == Delete {
      DeleteRecordSlots(toks, p.currState);
      AppendKeepsInv(p, DeleteRecord(toks, p.currState), p.currState, mode);
    } else {
      NormalRecordOk(toks, mode, p.currState);
      var r := NormalRecord(toks, mode, p.currState);
      if r.Some? {
        AppendKeepsInv(p, r.value, NormalState(toks, mode, p.currState), mode);
      }
    }
  }
}
