/**
 * The classes of hmm2parquet.py with the state they update in place.
 * Every method is proved against the functions of Records and Parser.
 */
module Hmm2Parquet {
  import opened Wrappers
  import opened PyText
  import opened PyFloat
  import opened Records
  import opened Parser

  /** How read_file ends: it returns, rejects the path, or raises while handling line index. */
  datatype Outcome = Completed | BadExtension | RaisedAtLine(index: nat)

  function OutcomeOf(r: RunResult): Outcome {
    match r
    case Done(_) => Completed
    case Stopped(_, k) => RaisedAtLine(k)
  }

  /**
   * The loop converting slots 2..21 of a parsed normal row with float(), in
   * place and in index order; None where a slot is missing (IndexError) or
   * is no float literal (ValueError).
   */
  method ConvertEmissions(parsed: seq<Field>) returns (r: Option<seq<Field>>)
    requires forall k :: 2 <= k < |parsed| ==> parsed[k].Text?
    ensures r.Some? <==> |parsed| >= 22 && forall k :: 2 <= k < 22 ==> IsFloatLiteral(parsed[k].s)
    ensures r.Some? ==>
      && |r.value| == |parsed|
      && (forall k :: 0 <= k < |parsed| && !(2 <= k < 22) ==> r.value[k] == parsed[k])
      && (forall k :: 2 <= k < 22 ==> r.value[k] == Float(parsed[k].s))
  {
    var slots := parsed;
    for i := 0 to 22
      invariant |slots| == |parsed|
      invariant i <= 2 || i <= |slots|
      invariant forall k :: 0 <= k < |slots| && (k < 2 || i <= k) ==> slots[k] == parsed[k]
      invariant forall k :: 2 <= k < i ==> IsFloatLiteral(parsed[k].s) && slots[k] == Float(parsed[k].s)
    {
      if i > 1 {
        if i >= |slots| {
          return None;
        }
        var token := slots[i].s;
        if !IsFloatLiteral(token) {
          return None;
        }
        slots := slots[i := Float(token)];
      }
    }
    return Some(slots);
  }

  /**
   * The tail of a normal row: the tokens after slot 21 joined without a
   * separator into rest, and None inserted at 22 + i for each of the seven
   * transitions of the first 22 slots.
   */
  method PadTransitions(parsed: seq<Field>) returns (withRest: Row)
    requires |parsed| >= 22 && forall k :: 22 <= k < |parsed| ==> parsed[k].Text?
    ensures withRest == parsed[..22] + Nulls(TransitionCount) + [Text(Join("", Strs(parsed[22..])))]
  {
    var rest := parsed[22..];
    var restStr := Join("", Strs(rest));
    var withoutRest := parsed[..22];
    for i := 0 to 7
      invariant withoutRest == parsed[..22] + Nulls(i)
    {
      withoutRest := ListInsert(withoutRest, i + 22, Null);
    }
    withRest := withoutRest + [Text(restStr)];
  }

  /** [el.strip() for el in line.split()]: stripping the tokens of split() leaves them as they are. */
  method SplitLine(line: string) returns (parsed: seq<string>)
    ensures parsed == Split(line)
  {
    var toks := Split(line);
    parsed := StripEach(toks);
    StripEachTokens(toks);
  }

  /**
   * The dict that is the default value of ProfileHMM's header parameter.
   * Python evaluates the default once, so every ProfileHMM() shares this one object.
   */
  class SharedHeader {
    var entries: map<string, string>

    constructor ()
      ensures entries == map[]
    {
      entries := map[];
    }
  }

  /** One profile HMM: its header dict, its table of rows, and the state index of the last match row. */
  class ProfileHMM {
    const header: SharedHeader
    var table: seq<Row>
    var currState: Field

    constructor (header: SharedHeader)
      ensures this.header == header && Value() == NewProfile
    {
      this.header := header;
      table := [];
      currState := Null;
    }

    function Value(): ProfileVal
      reads this
    {
      ProfileVal(table, currState)
    }

    /** Parses line as a row of the given mode and appends it; ok is false where the parser raises. */
    method InsertRow(line: string, mode: RowMode) returns (ok: bool)
      modifies this
      ensures (ok, Value()) == Inserted(old(Value()), line, mode)
    {
      var withRest: Option<Row>;
      match mode {
        case Match =>
          withRest := ParseNormalRow(line, mode);
        case Insert =>
          withRest := ParseNormalRow(line, mode);
        case Delete =>
          var r := ParseDeleteRow(line);
          withRest := Some(r);
      }
      if withRest.None? {
        return false;
      }
      table := table + [withRest.value];
      ok := true;
    }

    /**
     * A match or insert line: the state (read from a match line, inherited on
     * an insert line) and the mode are put in front by list insertion, slots
     * 2..21 are converted to floats in place, None is inserted seven times
     * and the remaining tokens are joined into rest.
     */
    method ParseNormalRow(line: string, mode: RowMode) returns (record: Option<Row>)
      requires mode != Delete
      modifies this`currState
      ensures currState == NormalState(Split(line), mode, old(currState))
      ensures record == NormalRecord(Split(line), mode, old(currState))
    {
      var toks := SplitLine(line);
      var parsed := Texts(toks);
      if mode == Match {
        if |parsed| == 0 {
          return None;
        }
        currState := parsed[0];
      }
      if mode == Insert {
        parsed := ListInsert(parsed, 0, currState);
      }
      parsed := ListInsert(parsed, 1, Text(ModeName(mode)));
      PrefixedByInsertion(toks, mode, old(currState));
      var converted := ConvertEmissions(parsed);
      NormalRecordParses(toks, mode, old(currState));
      if converted.None? {
        return None;
      }
      parsed := converted.value;
      NormalRecordBySlots(toks, mode, old(currState), parsed);
      var withRest := PadTransitions(parsed);
      record := Some(withRest);
    }

    /**
     * A delete line: the inherited state and the mode, 21 Nones appended, then
     * float(parsed[i]) (or -1 where that raises) inserted at 22 + i for each
     * of the seven transitions, which leaves the last None in slot 29.
     */
    method ParseDeleteRow(line: string) returns (total: Row)
      ensures total == DeleteRecord(Split(line), currState)
    {
      var parsed := SplitLine(line);
      ghost var toks := parsed;
      total := [currState, Text(ModeName(Delete))];
      for i := 0 to 21
        invariant total == [currState, Text(ModeName(Delete))] + Nulls(i)
      {
        total := total + [Null];
      }
      ghost var front := [currState, Text(ModeName(Delete))] + Nulls(EmissionCount);
      ghost var transitions := seq(TransitionCount, i requires 0 <= i < TransitionCount => TransitionField(toks, i));
      assert total == front + transitions[..0] + [Null];
      for i := 0 to 7
        invariant total == front + transitions[..i] + [Null]
      {
        var value: Field;
        if i < |parsed| && IsFloatLiteral(parsed[i]) {
          value := Float(parsed[i]);
        } else {
          value := MissingTransition;
        }
        assert value == transitions[i];
        assert transitions[..i + 1] == transitions[..i] + [value];
        assert total[..i + 22] == front + transitions[..i] && total[i + 22..] == [Null];
        total := ListInsert(total, i + 22, value);
      }
      assert transitions[..7] == transitions;
    }
  }

  /** A collection of parsed profiles, by name. */
  class ProfilesFile {
    var profiles: map<string, ProfileHMM>

    /** The profiles as values: each name's table and curr_state. */
    function Contents(): map<string, ProfileVal>
      reads this, profiles.Values
    {
      map n | n in profiles :: profiles[n].Value()
    }

    /** Every registered profile's table is one the row cycle builds. */
    ghost predicate Valid()
      reads this, profiles.Values
    {
      forall n :: n in Contents() ==> TableWF(Contents()[n].table)
    }

    constructor ()
      ensures Valid() && Contents() == map[]
    {
      profiles := map[];
    }

    /** The parser state that read_file's locals, the shared header and the profiles dict stand for. */
    ghost function State(headerMode: bool, rowMode: RowMode, currProfile: ProfileHMM?, defaultHeader: SharedHeader): ParseState
      reads this, profiles.Values, currProfile, defaultHeader
    {
      ParseState(headerMode, rowMode, if currProfile == null then None else Some(currProfile.Value()),
        defaultHeader.entries, Contents())
    }

    /** A NAME line: a new ProfileHMM on the shared header, whose "name" is set for every profile. */
    static method OpenProfile(name: string, defaultHeader: SharedHeader) returns (p: ProfileHMM)
      modifies defaultHeader
      ensures fresh(p) && p.header == defaultHeader && p.Value() == NewProfile
      ensures defaultHeader.entries == old(defaultHeader.entries)["name" := name]
    {
      p := new ProfileHMM(defaultHeader);
      p.header.entries := p.header.entries["name" := name];
    }

    /**
     * One pass of read_file's loop body in header mode, on the stripped
     * line: ok is false where the body raises; otherwise header_mode,
     * curr_profile and the objects are in the state Step gives.
     */
    method ReadHeaderLine(line: string, headerMode: bool, rowMode: RowMode, currProfile: ProfileHMM?, defaultHeader: SharedHeader)
      returns (ok: bool, headerMode': bool, currProfile': ProfileHMM?)
      requires headerMode
      requires currProfile != null ==> currProfile.header == defaultHeader && currProfile !in profiles.Values
      modifies defaultHeader
      ensures currProfile' != null ==>
        (currProfile' == currProfile || fresh(currProfile'))
        && currProfile'.header == defaultHeader && currProfile' !in profiles.Values
      ensures Contents() == old(Contents())
      ensures !ok ==> defaultHeader.entries == old(defaultHeader.entries)
      ensures Step(old(State(headerMode, rowMode, currProfile, defaultHeader)), line)
        == if ok then Some(State(headerMode', rowMode, currProfile', defaultHeader)) else None
    {
      ghost var st := State(headerMode, rowMode, currProfile, defaultHeader);
      HeaderLine(st, line);
      ok, headerMode', currProfile' := true, true, currProfile;
      if StartsWith(line, "HMMER3") {
        return;
      }
      if StartsWith(line, "NAME") {
        var parts := Split(line);
        if |parts| < 2 {
          return false, headerMode', currProfile';
        }
        currProfile' := OpenProfile(parts[1], defaultHeader);
        return;
      }
      if StartsWith(line, "HMM") {
        headerMode' := false;
        return;
      } else {
        KeyValueLine(st, line);
        ok := SetHeaderEntry(line, currProfile, defaultHeader);
      }
    }

    /**
     * Any other header line: its first token, lower-cased, keys the rest of
     * its tokens joined by single spaces in the shared header; ok is false
     * where the split is empty or there is no profile yet.
     */
    static method SetHeaderEntry(line: string, currProfile: ProfileHMM?, defaultHeader: SharedHeader) returns (ok: bool)
      requires currProfile != null ==> currProfile.header == defaultHeader
      modifies defaultHeader
      ensures ok <==> Split(line) != [] && currProfile != null
      ensures ok ==>
        var parts := Split(line);
        defaultHeader.entries == old(defaultHeader.entries)[Lower(parts[0]) := Join(" ", parts[1..])]
      ensures !ok ==> defaultHeader.entries == old(defaultHeader.entries)
    {
      var keyValue := ParseKeyValue(line);
      ParseKeyValueParts(line);
      if keyValue.None? || currProfile == null {
        return false;
      }
      var (key, value) := keyValue.value;
      currProfile.header.entries := currProfile.header.entries[Lower(key) := value];
      return true;
    }

    /**
     * One pass of read_file's loop body in table mode, on the stripped line:
     * ok is false where the body raises; otherwise row_mode, curr_profile,
     * the profiles dict and the open profile's table are in the state Step gives.
     */
    method ReadTableLine(line: string, headerMode: bool, rowMode: RowMode, currProfile: ProfileHMM?, defaultHeader: SharedHeader)
      returns (ok: bool, rowMode': RowMode, currProfile': ProfileHMM?)
      requires !headerMode
      requires currProfile != null ==> currProfile.header == defaultHeader && currProfile !in profiles.Values
      modifies this, currProfile
      ensures currProfile' != null ==>
        currProfile' == currProfile && currProfile'.header == defaultHeader && currProfile' !in profiles.Values
      ensures forall n :: n in profiles ==> profiles[n] in old(profiles.Values) || profiles[n].header == defaultHeader
      ensures !ok ==> Contents() == old(Contents())
      ensures Step(old(State(headerMode, rowMode, currProfile, defaultHeader)), line)
        == if ok then Some(State(headerMode, rowMode', currProfile', defaultHeader)) else None
    {
      ghost var st := State(headerMode, rowMode, currProfile, defaultHeader);
      ok, rowMode', currProfile' := true, rowMode, currProfile;
      if line == "//" {
        TerminatorLine(st);
        if currProfile == null || "name" !in currProfile.header.entries {
          return false, rowMode', currProfile';
        }
        var name := currProfile.header.entries["name"];
        profiles := profiles[name := currProfile];
        assert Contents() == st.profiles[name := st.curr.value];
        currProfile' := null;
        return;
      }
      if StartsWith(line, "m->m") {
        TransitionHeaderLine(st, line);
        return;
      } else {
        TableRowLine(st, line);
        if currProfile == null {
          return false, rowMode', currProfile';
        }
        ok := currProfile.InsertRow(line, rowMode);
        if !ok {
          return;
        }
        match rowMode {
          case Match => rowMode' := Insert;
          case Insert => rowMode' := Delete;
          case Delete => rowMode' := Match;
        }
      }
    }

    /** One pass of read_file's loop body on the stripped line, by header_mode. */
    method ReadLine(line: string, headerMode: bool, rowMode: RowMode, currProfile: ProfileHMM?, defaultHeader: SharedHeader)
      returns (ok: bool, headerMode': bool, rowMode': RowMode, currProfile': ProfileHMM?)
      requires currProfile != null ==> currProfile.header == defaultHeader && currProfile !in profiles.Values
      modifies this, defaultHeader, currProfile
      ensures currProfile' != null ==>
        (currProfile' == currProfile || fresh(currProfile'))
        && currProfile'.header == defaultHeader && currProfile' !in profiles.Values
      ensures forall n :: n in profiles ==> profiles[n] in old(profiles.Values) || profiles[n].header == defaultHeader
      ensures !ok ==> Contents() == old(Contents()) && defaultHeader.entries == old(defaultHeader.entries)
      ensures Step(old(State(headerMode, rowMode, currProfile, defaultHeader)), line)
        == if ok then Some(State(headerMode', rowMode', currProfile', defaultHeader)) else None
    {
      if headerMode {
        rowMode' := rowMode;
        ok, headerMode', currProfile' := ReadHeaderLine(line, headerMode, rowMode, currProfile, defaultHeader);
      } else {
        headerMode' := false;
        ok, rowMode', currProfile' := ReadTableLine(line, headerMode, rowMode, currProfile, defaultHeader);
      }
    }

    /**
     * read_file over the lines of the file at filepath.  defaultHeader is the
     * dict every ProfileHMM() shares.  A path not ending in ".hmm" is
     * rejected before any line is read; otherwise the profiles and the shared
     * header end as Run says, also when a line raises.
     */
    method ReadFile(filepath: string, lines: seq<string>, defaultHeader: SharedHeader) returns (outcome: Outcome)
      requires Valid()
      modifies this, defaultHeader
      ensures Valid()
      ensures forall n :: n in profiles ==> profiles[n] in old(profiles.Values) || profiles[n].header == defaultHeader
      ensures !EndsWith(filepath, ".hmm") ==>
        outcome == BadExtension && Contents() == old(Contents()) && defaultHeader.entries == old(defaultHeader.entries)
      ensures EndsWith(filepath, ".hmm") ==>
        var r := Run(Start(old(defaultHeader.entries), old(Contents())), lines);
        outcome == OutcomeOf(r) && Contents() == r.state.profiles && defaultHeader.entries == r.state.header
    {
      if !EndsWith(filepath, ".hmm") {
        return BadExtension;
      }
      ghost var start := Start(defaultHeader.entries, Contents());
      var currProfile: ProfileHMM? := null;
      var headerMode := true;
      var rowMode := Match;
      for i := 0 to |lines|
        invariant currProfile != null ==>
          fresh(currProfile) && currProfile.header == defaultHeader && currProfile !in profiles.Values
        invariant forall n :: n in profiles ==> profiles[n] in old(profiles.Values) || profiles[n].header == defaultHeader
        invariant Run(start, lines[..i]) == Done(State(headerMode, rowMode, currProfile, defaultHeader))
      {
        RunSnoc(start, lines, i);
        ghost var before := State(headerMode, rowMode, currProfile, defaultHeader);
        var line := Strip(lines[i]);
        var ok;
        ok, headerMode, rowMode, currProfile := ReadLine(line, headerMode, rowMode, currProfile, defaultHeader);
        if !ok {
          RunStoppedPrefix(start, lines, i + 1);
          assert Run(start, lines) == Stopped(before, i);
          assert Valid() by { RunKeepsTablesWF(old(defaultHeader.entries), old(Contents()), lines); }
          return RaisedAtLine(i);
        }
      }
      assert lines[..|lines|] == lines;
      assert Run(start, lines).state == State(headerMode, rowMode, currProfile, defaultHeader);
      assert Valid() by { RunKeepsTablesWF(old(defaultHeader.entries), old(Contents()), lines); }
      outcome := Completed;
    }
  }
}
