/**
 * The line-driven state machine of ProfilesFile.read_file as a function on
 * values: the state is header_mode, row_mode, curr_profile, the one header
 * dict that every ProfileHMM shares (the mutable default argument of its
 * constructor), and the profiles dict.  Step is one iteration of the loop,
 * Run the loop over a file's lines.
 */
module Parser {
  import opened Wrappers
  import opened PyText
  import opened Records

  datatype ParseState = ParseState(
    headerMode: bool,
    rowMode: RowMode,
    curr: Option<ProfileVal>,
    header: map<string, string>,
    profiles: map<string, ProfileVal>)

  /** The state when read_file starts reading: its locals are fresh, the shared header and the profiles dict are not. */
  function Start(header: map<string, string>, profiles: map<string, ProfileVal>): ParseState {
    ParseState(true, Match, None, header, profiles)
  }

  /**
   * _parse_key_value: the first token, and the remaining tokens joined by
   * single spaces, each stripped; None where indexing the empty split raises.
   */
  function ParseKeyValue(line: string): Option<(string, string)> {
    var parts := Split(line);
    if parts == [] then None
    else Some((Strip(parts[0]), Strip(Join(" ", parts[1..]))))
  }

  /**
   * The key is the first token and the value the other tokens joined by
   * single spaces (the strips change nothing); splitting the value gives
   * back those tokens.
   */
  lemma ParseKeyValueParts(line: string)
    ensures ParseKeyValue(line).Some? <==> Split(line) != []
    ensures ParseKeyValue(line).Some? ==>
      var (key, value) := ParseKeyValue(line).value;
      key == Split(line)[0] && value == Join(" ", Split(line)[1..]) && Split(value) == Split(line)[1..]
  {
    var parts := Split(line);
    if parts != [] {
      StripUnpadded(parts[0]);
      StripJoin(parts[1..]);
      SplitJoin(parts[1..]);
    }
  }

  /** One pass of read_file's loop body on an already stripped line; None where the body raises. */
  function Step(st: ParseState, line: string): Option<ParseState> {
    if st.headerMode then
      if StartsWith(line, "HMMER3") then Some(st)
      else if StartsWith(line, "NAME") then
        var parts := Split(line);
        if |parts| < 2 then None
        else Some(st.(curr := Some(NewProfile), header := st.header["name" := parts[1]]))
      else if StartsWith(line, "HMM") then Some(st.(headerMode := false))
      else
        match ParseKeyValue(line)
        case None => None
        case Some((key, value)) =>
          if st.curr.None? then None
          else Some(st.(header := st.header[Lower(key) := value]))
    else if line == "//" then
      if st.curr.None? || "name" !in st.header then None
      else Some(st.(profiles := st.profiles[st.header["name"] := st.curr.value], curr := None))
    else if StartsWith(line, "m->m") then Some(st)
    else if st.curr.None? then None
    else
      var (ok, p) := Inserted(st.curr.value, line, st.rowMode);
      if !ok then None
      else Some(st.(curr := Some(p), rowMode := NextMode(st.rowMode)))
  }

  /** Where the loop got to: the end of the lines, or the line whose body raised and the state just before it. */
  datatype RunResult = Done(state: ParseState) | Stopped(state: ParseState, at: nat)

  /** read_file's loop over lines, each stripped first. */
  function Run(st: ParseState, lines: seq<string>): RunResult
    decreases |lines|
  {
    if lines == [] then Done(st)
    else
      match Run(st, lines[..|lines| - 1])
      case Stopped(s, k) => Stopped(s, k)
      case Done(s) =>
        match Step(s, Strip(lines[|lines| - 1]))
        case None => Stopped(s, |lines| - 1)
        case Some(s') => Done(s')
  }

  /**
   * The states read_file can reach from Start: header mode keeps row_mode at
   * match and the open profile empty; an open profile is named and in the row
   * cycle; every registered profile's table is well formed.
   */
  predicate Inv(st: ParseState) {
    (st.headerMode ==> st.rowMode == Match && (st.curr.Some? ==> st.curr.value == NewProfile))
    && (st.curr.Some? ==> "name" in st.header && ProfileInv(st.curr.value, st.rowMode))
    && (forall n :: n in st.profiles ==> TableWF(st.profiles[n].table))
  }

  /** After the terminator: table mode with no open profile. */
  predicate Closed(st: ParseState) {
    !st.headerMode && st.curr.None?
  }

  // ----- One line at a time -----

  /**
   * Header mode: the banner changes nothing; NAME opens a fresh profile and
   * sets only the shared header's "name" to the second token; HMM leaves
   * header mode and nothing else.  No header line touches the profiles or
   * the row cycle.
   */
  lemma HeaderLine(st: ParseState, line: string)
    requires st.headerMode
    ensures StartsWith(line, "HMMER3") ==> Step(st, line) == Some(st)
    ensures !StartsWith(line, "HMMER3") && StartsWith(line, "NAME") ==>
      if |Split(line)| < 2 then Step(st, line).None?
      else Step(st, line) == Some(st.(curr := Some(NewProfile), header := st.header["name" := Split(line)[1]]))
    ensures !StartsWith(line, "HMMER3") && !StartsWith(line, "NAME") && StartsWith(line, "HMM") ==>
      Step(st, line) == Some(st.(headerMode := false))
    ensures Step(st, line).Some? ==>
      Step(st, line).value.profiles == st.profiles && Step(st, line).value.rowMode == st.rowMode
  {
  }

  /**
   * Any other header line stores its lower-cased first token as a key of the
   * shared header, with the other tokens joined by single spaces; it raises
   * where the line is blank or no NAME line came before.
   */
  lemma KeyValueLine(st: ParseState, line: string)
    requires st.headerMode && !StartsWith(line, "HMMER3") && !StartsWith(line, "NAME") && !StartsWith(line, "HMM")
    ensures Step(st, line).Some? <==> st.curr.Some? && Split(line) != []
    ensures Step(st, line).Some? ==>
      var parts := Split(line);
      Step(st, line) == Some(st.(header := st.header[Lower(parts[0]) := Join(" ", parts[1..])]))
      && Split(Join(" ", parts[1..])) == parts[1..]
  {
    ParseKeyValueParts(line);
    var kv := ParseKeyValue(line);
    assert Step(st, line) == if kv.None? || st.curr.None? then None
      else Some(st.(header := st.header[Lower(kv.value.0) := kv.value.1]));
  }

  /** The terminator registers the open profile under the shared header's name, overwriting, and closes it; header mode stays off. */
  lemma TerminatorLine(st: ParseState)
    requires !st.headerMode
    ensures Step(st, "//").Some? <==> st.curr.Some? && "name" in st.header
    ensures Step(st, "//").Some? ==>
      var s := Step(st, "//").value;
      s.profiles == st.profiles[st.header["name"] := st.curr.value] && s.profiles[st.header["name"]] == st.curr.value
      && Closed(s) && s.rowMode == st.rowMode && s.header == st.header
  {
  }

  /** In table mode an m->m line changes nothing, the row cycle included. */
  lemma TransitionHeaderLine(st: ParseState, line: string)
    requires !st.headerMode && line != "//" && StartsWith(line, "m->m")
    ensures Step(st, line) == Some(st)
  {
  }

  /** In table mode any other line is the next row of the cycle: it is appended to the open profile and row_mode advances. */
  lemma TableRowLine(st: ParseState, line: string)
    requires !st.headerMode && line != "//" && !StartsWith(line, "m->m")
    ensures Step(st, line).Some? <==> st.curr.Some? && Inserted(st.curr.value, line, st.rowMode).0
    ensures Step(st, line).Some? ==>
      var s := Step(st, line).value;
      s.rowMode == NextMode(st.rowMode) && s.curr == Some(Inserted(st.curr.value, line, st.rowMode).1)
      && |s.curr.value.table| == |st.curr.value.table| + 1
      && s.curr.value.table[..|st.curr.value.table|] == st.curr.value.table
      && IsRecordOf(s.curr.value.table[|st.curr.value.table|], st.rowMode)
      && s.profiles == st.profiles && s.header == st.header
  {
    if st.curr.Some? {
      InsertedAppends(st.curr.value, line, st.rowMode);
    }
  }

  /** Once closed, only m->m lines go through: the next profile's first line raises, because header mode is never restored. */
  lemma ClosedStep(st: ParseState, line: string)
    requires Closed(st)
    ensures Step(st, line).Some? <==> line != "//" && StartsWith(line, "m->m")
    ensures Step(st, line).Some? ==> Step(st, line).value == st
  {
  }

  /** Every step of read_file keeps the reachable-state invariant. */
  lemma StepKeepsInv(st: ParseState, line: string)
    requires Inv(st)
    ensures Step(st, line).Some? ==> Inv(Step(st, line).value)
  {
    if !st.headerMode && line != "//" && !StartsWith(line, "m->m") && st.curr.Some? {
      InsertedKeepsInv(st.curr.value, line, st.rowMode);
    }
  }

  // ----- Whole runs -----

  lemma RunSnoc(st: ParseState, lines: seq<string>, i: nat)
    requires i < |lines|
    ensures Run(st, lines[..i + 1]) ==
      match Run(st, lines[..i])
      case Stopped(s, k) => Stopped(s, k)
      case Done(s) =>
        match Step(s, Strip(lines[i]))
        case None => Stopped(s, i)
        case Some(s') => Done(s')
  {
    assert lines[..i + 1][..i] == lines[..i];
  }

  /** A run that raised on a prefix of the lines raised there on the whole file. */
  lemma {:induction false} RunStoppedPrefix(st: ParseState, lines: seq<string>, i: nat)
    requires i <= |lines|
    requires Run(st, lines[..i]).Stopped?
    ensures Run(st, lines) == Run(st, lines[..i])
    decreases |lines| - i
  {
    if i == |lines| {
      assert lines[..i] == lines;
    } else {
      RunSnoc(st, lines, i);
      RunStoppedPrefix(st, lines, i + 1);
    }
  }

  /** The reachable-state invariant holds wherever a run ends, so every profile read_file registers is well formed. */
  lemma {:induction false} RunKeepsInv(st: ParseState, lines: seq<string>)
    requires Inv(st)
    ensures Inv(Run(st, lines).state)
    decreases |lines|
  {
    if lines != [] {
      var init := lines[..|lines| - 1];
      RunKeepsInv(st, init);
      match Run(st, init)
      case Stopped(_, _) =>
      case Done(s) => StepKeepsInv(s, Strip(lines[|lines| - 1]));
    }
  }

  /** Start meets the invariant when the profiles registered before are well formed. */
  lemma StartInv(header: map<string, string>, profiles: map<string, ProfileVal>)
    requires forall n :: n in profiles ==> TableWF(profiles[n].table)
    ensures Inv(Start(header, profiles))
  {
  }

  /** Every table registered by a run from Start, over profiles whose tables are well formed, is well formed. */
  lemma RunKeepsTablesWF(header: map<string, string>, profiles: map<string, ProfileVal>, lines: seq<string>)
    requires forall n :: n in profiles ==> TableWF(profiles[n].table)
    ensures var ps := Run(Start(header, profiles), lines).state.profiles;
      forall n :: n in ps ==> TableWF(ps[n].table)
  {
    StartInv(header, profiles);
    RunKeepsInv(Start(header, profiles), lines);
  }

  /** Only a successful terminator changes the profiles, and it leaves the parser closed. */
  lemma StepProfiles(st: ParseState, line: string)
    ensures Step(st, line).Some? && Step(st, line).value.profiles != st.profiles ==>
      line == "//" && Closed(Step(st, line).value) && "name" in st.header
      && Step(st, line).value.profiles == st.profiles[st.header["name"] := Step(st, line).value.profiles[st.header["name"]]]
  {
    if st.headerMode {
      HeaderLine(st, line);
    } else if line == "//" {
      TerminatorLine(st);
    } else if StartsWith(line, "m->m") {
      TransitionHeaderLine(st, line);
    } else {
      TableRowLine(st, line);
    }
  }

  /**
   * One call of read_file registers at most one profile: the profiles end
   * either as they were, or with exactly one name (re)bound and the parser closed.
   */
  lemma {:induction false} RunRegistersAtMostOne(st: ParseState, lines: seq<string>)
    ensures var s := Run(st, lines).state;
      s.profiles == st.profiles
      || (Closed(s) && exists n :: n in s.profiles && s.profiles == st.profiles[n := s.profiles[n]])
    decreases |lines|
  {
    if lines != [] {
      var init := lines[..|lines| - 1];
      RunRegistersAtMostOne(st, init);
      match Run(st, init)
      case Stopped(_, _) =>
      case Done(s) =>
        var line := Strip(lines[|lines| - 1]);
        if Closed(s) {
          ClosedStep(s, line);
        } else {
          StepProfiles(s, line);
          if Step(s, line).Some? && Step(s, line).value.profiles != s.profiles {
            var n := s.header["name"];
            assert n in Step(s, line).value.profiles;
          }
        }
    }
  }

  /** Without a "//" line nothing is registered: a profile left open at the end of the file is dropped without an error. */
  lemma {:induction false} RunWithoutTerminator(st: ParseState, lines: seq<string>)
    requires forall k :: 0 <= k < |lines| ==> Strip(lines[k]) != "//"
    ensures Run(st, lines).state.profiles == st.profiles
    decreases |lines|
  {
    if lines != [] {
      var init := lines[..|lines| - 1];
      RunWithoutTerminator(st, init);
      match Run(st, init)
      case Stopped(_, _) =>
      case Done(s) => StepProfiles(s, Strip(lines[|lines| - 1]));
    }
  }
}
