/**
 The boot-control protocol of recovery (recovery.c): the boot message and the command file persist, a boot is
 a series of effects on them and on the partitions, and power may be lost between any two effects.
 */
module Recovery {
  import opened Wrappers
  import opened BootMessage

  const COMMAND_FIELD := 32
  const BOOT_RECOVERY := "boot-recovery"

  datatype Root = DATA | CACHE

  /** What main gets from getopt_long (recovery.c:554-568). */
  datatype Options = Options(socketServer: bool, updatePackage: Option<string>, wipeData: bool, wipeCache: bool)

  datatype Status = InstallSuccess | InstallError

  /** What a boot does that can be seen from outside. */
  datatype Effect =
    | Started
    | Stored(message: Message)
    | DeviceWiped(ok: bool)
    | Formatted(root: Root, ok: bool)
    | Installed(package: string, ok: bool)
    | CommandRemoved

  /** What survives losing power, with everything done so far. */
  datatype State = State(boot: Message, commandFile: Option<string>, log: seq<Effect>)

  function Zeros(n: nat): (s: string)
    ensures |s| == n && forall i :: 0 <= i < n ==> s[i] == NUL
  {
    seq(n, _ => NUL)
  }

  const ZEROED := Message(Zeros(COMMAND_FIELD), Zeros(COMMAND_FIELD), Zeros(FIELD))

  predicate WellSized(m: Message)
  {
    |m.command| == COMMAND_FIELD && |m.recovery| == FIELD
  }

  /** The message makes the bootloader start recovery, and recovery take these arguments. */
  ghost predicate Carries(m: Message, args: seq<Arg>)
  {
    WellSized(m) && CString(m.command) == BOOT_RECOVERY && Decode(m.recovery) == Some(args)
  }

  // ---------------------------------------------------------------- the command file

  /** One fgets: up to a newline, the buffer's size or the end. */
  function Fgets(f: string): (line: string)
    requires f != []
    ensures 0 < |line| < MAX_ARG_LENGTH && line <= f
    ensures NEWLINE !in line[..|line| - 1]
    ensures line[|line| - 1] == NEWLINE || |line| == MAX_ARG_LENGTH - 1 || line == f
  {
    var n := Line(f);
    var whole := if n < |f| then n + 1 else n;
    if whole < MAX_ARG_LENGTH then f[..whole] else f[..MAX_ARG_LENGTH - 1]
  }

  predicate IsBreak(c: char)
  {
    c == '\r' || c == '\n'
  }

  function SkipBreaks(s: string): (r: string)
    ensures |r| <= |s| && (r != [] ==> !IsBreak(r[0])) && forall c :: c in r ==> c in s
  {
    if s != [] && IsBreak(s[0]) then SkipBreaks(s[1..]) else s
  }

  function UpToBreak(s: string): (r: string)
    ensures r <= s && (forall c :: c in r ==> !IsBreak(c)) && (s != [] && !IsBreak(s[0]) ==> r != [])
  {
    if s == [] || IsBreak(s[0]) then [] else [s[0]] + UpToBreak(s[1..])
  }

  /** strtok(buf, "\r\n") on a line; None is a null pointer. */
  function Strip(line: string): (r: Option<Arg>)
    ensures r.Some? ==> Clean(r.value)
    ensures r.None? <==> forall c :: c in CString(line) ==> IsBreak(c)
  {
    var s := SkipBreaks(CString(line));
    OnlyBreaks(CString(line));
    if s == [] then None else Some(UpToBreak(s))
  }

  lemma {:induction false} OnlyBreaks(s: string)
    ensures SkipBreaks(s) == [] <==> forall c :: c in s ==> IsBreak(c)
  {
    if s != [] && IsBreak(s[0]) {
      OnlyBreaks(s[1..]);
      assert s == [s[0]] + s[1..];
    } else if s != [] {
      assert s[0] in s;
    }
  }

  /** The arguments in a command file, one per line (recovery.c:212-217); None if a blank line makes strdup fail. */
  ghost function FileArgs(f: string, room: nat): (r: Option<seq<Arg>>)
    ensures r.Some? ==> AllClean(r.value) && |r.value| <= room
    decreases room
  {
    if room == 0 || f == [] then Some([])
    else
      var line := Fgets(f);
      var arg, rest := Strip(line), FileArgs(f[|line|..], room - 1);
      if arg.None? || rest.None? then None else Some([arg.value] + rest.value)
  }

  function Prepend(args: seq<Arg>, more: Option<seq<Arg>>): (r: Option<seq<Arg>>)
  {
    if more.None? then None else Some(args + more.value)
  }

  lemma FileArgsNext(f: string, room: nat, args: seq<Arg>)
    requires room > 0 && f != []
    ensures var line := Fgets(f);
            Prepend(args, FileArgs(f, room)) ==
            if Strip(line).None? then None else Prepend(args + [Strip(line).value], FileArgs(f[|line|..], room - 1))
  {
    var line := Fgets(f);
    hide Fgets, Strip;
    var arg, rest := Strip(line), FileArgs(f[|line|..], room - 1);
    if arg.Some? && rest.Some? { assert args + ([arg.value] + rest.value) == args + [arg.value] + rest.value; }
  }

  lemma FileArgsEnd(f: string, room: nat)
    requires room == 0 || f == []
    ensures FileArgs(f, room) == Some([])
  {
  }

  lemma PrependNothing(more: Option<seq<Arg>>)
    ensures Prepend([], more) == more
  {
    if more.Some? { assert [] + more.value == more.value; }
  }

  /** The fgets loop (recovery.c:212-217). */
  method ReadCommandFile(f: string) returns (r: Option<seq<Arg>>)
    ensures r == FileArgs(f, MAX_ARGS - 1)
  {
    hide FileArgs, Fgets, Strip;
    var rest := f;
    var argc, args: seq<Arg> := 1, [];
    PrependNothing(FileArgs(f, MAX_ARGS - 1));
    while argc < MAX_ARGS
      invariant argc <= MAX_ARGS && |args| == argc - 1
      invariant FileArgs(f, MAX_ARGS - 1) == Prepend(args, FileArgs(rest, MAX_ARGS - argc))
    {
      if rest == [] {
        break;
      }
      FileArgsNext(rest, MAX_ARGS - argc, args);
      var line := Fgets(rest);
      var arg := Strip(line);
      if arg.None? {
        return None;
      }
      args := args + [arg.value];
      rest := rest[|line|..];
      argc := argc + 1;
    }
    FileArgsEnd(rest, MAX_ARGS - argc);
    assert args + [] == args;
    r := Some(args);
  }

  /** An argument that takes one line of the file, whichever way lines end. */
  ghost predicate OneLine(a: Arg)
  {
    0 < |a| && |a| + 2 < 4096 && '\n' !in a && '\r' !in a && '\0' !in a
  }

  ghost predicate IsEol(eol: string)
  {
    eol == "\n" || eol == "\r\n"
  }

  /** The arguments, each on a line of its own. */
  ghost function Lines(args: seq<Arg>, eol: string): (f: string)
  {
    if args == [] then "" else args[0] + eol + Lines(args[1..], eol)
  }

  lemma {:induction false} UpToBreakIs(a: string, tail: string)
    requires (forall c :: c in a ==> !IsBreak(c)) && (tail != [] ==> IsBreak(tail[0]))
    ensures UpToBreak(a + tail) == a
  {
    if a == [] {
      assert a + tail == tail;
    } else {
      assert a[0] in a && (a + tail)[0] == a[0] && (a + tail)[1..] == a[1..] + tail;
      UpToBreakIs(a[1..], tail);
    }
  }

  /** A line is stripped of its end and of nothing else. */
  lemma StripMeans(a: Arg, eol: string)
    requires OneLine(a) && (eol == "" || IsEol(eol))
    ensures Strip(a + eol) == Some(a)
  {
    var line := a + eol;
    assert NUL !in line;
    CStringIs(line, line);
    assert line[0] == a[0] && a[0] in a;
    UpToBreakIs(a, eol);
  }

  lemma FgetsMeans(a: Arg, eol: string, rest: string)
    requires OneLine(a) && IsEol(eol)
    ensures Fgets(a + eol + rest) == a + eol
  {
    var f, n := a + eol + rest, |a| + |eol| - 1;
    assert f[n] == NEWLINE && f[..n + 1] == a + eol;
    forall k | 0 <= k < n
      ensures f[k] != NEWLINE
    {
      assert k < |a| ==> f[k] == a[k] && a[k] in a;
    }
    LineBefore(f, n);
  }

  lemma FgetsLast(a: Arg)
    requires OneLine(a)
    ensures Fgets(a) == a
  {
    LineBefore(a, |a|);
    assert a[..|a|] == a;
  }

  /** A file of one-line arguments, the last perhaps without an end of line, gives those arguments. */
  lemma {:induction false} FileMeans(args: seq<Arg>, eol: string, tail: Arg, room: nat)
    requires IsEol(eol) && (forall i :: 0 <= i < |args| ==> OneLine(args[i])) && (tail == "" || OneLine(tail))
    requires |args| + (if tail == "" then 0 else 1) <= room
    ensures FileArgs(Lines(args, eol) + tail, room) == Some(args + if tail == "" then [] else [tail])
    decreases |args|
  {
    hide *;
    if args == [] {
      NoLines(eol, tail);
      if tail == "" { FileArgsEnd("", room); } else { LastLine(tail, room); }
      assert args + (if tail == "" then [] else [tail]) == if tail == "" then [] else [tail];
    } else {
      var rest := Lines(args[1..], eol) + tail;
      FirstLine(args, eol, tail);
      LineRead(args[0], eol, rest, room);
      FileMeans(args[1..], eol, tail, room - 1);
      PrependFirst(args, if tail == "" then [] else [tail]);
    }
  }

  lemma NoLines(eol: string, tail: string)
    ensures Lines([], eol) + tail == tail
  {
  }

  lemma FirstLine(args: seq<Arg>, eol: string, tail: string)
    requires args != []
    ensures Lines(args, eol) + tail == args[0] + eol + (Lines(args[1..], eol) + tail)
  {
  }

  lemma LineRead(a: Arg, eol: string, rest: string, room: nat)
    requires OneLine(a) && IsEol(eol) && room > 0
    ensures FileArgs(a + eol + rest, room) == Prepend([a], FileArgs(rest, room - 1))
  {
    var f := a + eol + rest;
    assert f != [];
    hide *;
    FgetsMeans(a, eol, rest);
    StripMeans(a, eol);
    FileArgsNext(f, room, []);
    PrependNothing(FileArgs(f, room));
    assert f[|a + eol|..] == rest && [] + [a] == [a];
  }

  lemma LastLine(a: Arg, room: nat)
    requires OneLine(a) && room > 0
    ensures FileArgs(a, room) == Some([a])
  {
    assert a != [] && a + "" == a;
    hide *;
    FgetsLast(a);
    StripMeans(a, "");
    FileArgsNext(a, room, []);
    PrependNothing(FileArgs(a, room));
    FileArgsEnd("", room - 1);
    PrependOne(a);
    assert a[|a|..] == "" && [] + [a] == [a];
  }

  lemma PrependOne(a: Arg)
    ensures Prepend([a], Some([])) == Some([a])
  {
    assert [a] + [] == [a];
  }

  lemma PrependFirst(args: seq<Arg>, more: seq<Arg>)
    requires args != []
    ensures Prepend([args[0]], Some(args[1..] + more)) == Some(args + more)
  {
    assert [args[0]] + (args[1..] + more) == args + more;
  }

  // ---------------------------------------------------------------- choosing the arguments

  function Strtok(s: string): (r: Option<(Arg, string)>)
    ensures r.None? <==> Tokens(s) == []
    ensures r.Some? ==> Tokens(s) == [r.value.0] + Tokens(r.value.1)
  {
    var p := SkipNewlines(s);
    if p == [] then None else Some((p[..Line(p)], p[Line(p)..]))
  }

  /** The strtok loop over the boot message (recovery.c:188-200). */
  method ReadMessage(field: string) returns (r: Option<seq<Arg>>)
    requires |field| == FIELD
    ensures r == Decode(field)
  {
    hide Tokens, CString, Strtok;
    var text := CString(field[FIELD - 1 := NUL]);
    var arg := Strtok(text);
    if arg.None? || arg.value.0 != TITLE {
      return None;
    }
    var rest, argv := arg.value.1, [arg.value.0];
    while |argv| < MAX_ARGS
      invariant 1 <= |argv| <= MAX_ARGS && argv + Tokens(rest) == Tokens(text) && argv[0] == TITLE
    {
      arg := Strtok(rest);
      if arg.None? {
        break;
      }
      argv := argv + [arg.value.0];
      rest := arg.value.1;
    }
    ghost var t := Tokens(text);
    assert argv[1..] == t[1..|argv|];
    assert |argv| == MAX_ARGS || |argv| == |t|;
    assert t[1..|t|] == t[1..];
    r := Some(argv[1..]);
  }

  /** Where the arguments come from, in order of precedence (recovery.c:167-170); None if get_args dies. */
  ghost function Chosen(given: seq<Arg>, m: Message, commandFile: Option<string>): (r: Option<seq<Arg>>)
    requires WellSized(m)
  {
    if given != [] then Some(given)
    else if Decode(m.recovery).Some? && Decode(m.recovery).value != [] then Decode(m.recovery)
    else if commandFile.Some? then FileArgs(commandFile.value, MAX_ARGS - 1)
    else Some([])
  }

  /** Arguments in the boot message win over any command file, and writing them back loses nothing. */
  lemma RestartTakesSame(m: Message, args: seq<Arg>, commandFile: Option<string>)
    requires Carries(m, args) && args != []
    ensures Chosen([], m, commandFile) == Some(args) && Reread(args) == Some(args) && AllClean(args)
  {
    DecodedFits(m.recovery);
  }

  lemma ZeroedDecodes()
    ensures Decode(ZEROED.recovery) == None
  {
    CStringIs(Zeros(FIELD), "");
    CStringIs(Zeros(FIELD)[FIELD - 1 := NUL], "");
    assert Tokens("") == [];
  }

  /** After a failed read of the message the arguments are kept exactly when the command file still gives them. */
  lemma FaultExact(args: seq<Arg>, commandFile: Option<string>)
    ensures Chosen([], ZEROED, commandFile) == Some(args) <==>
            if commandFile.Some? then FileArgs(commandFile.value, MAX_ARGS - 1) == Some(args) else args == []
  {
    ZeroedDecodes();
  }

  /** So without a command file a boot whose read of the message fails forgets the arguments for good. */
  lemma FaultForgets()
    ensures Chosen([], ZEROED, None) == Some([]) && Reread([]) == Some([])
  {
    ZeroedDecodes();
    RereadExact([]);
    assert Text([]) == Joined([TITLE]) == TITLE + [NEWLINE] + Joined([TITLE][1..]);
  }

  // ---------------------------------------------------------------- what a boot has to do before it forgets

  ghost predicate HasFormat(es: seq<Effect>, root: Root)
  {
    exists i :: 0 <= i < |es| && es[i].Formatted? && es[i].root == root
  }

  ghost predicate HasInstall(es: seq<Effect>, package: string)
  {
    exists i :: 0 <= i < |es| && es[i].Installed? && es[i].package == package
  }

  /** The commanded work has been attempted among these effects. */
  ghost predicate Attempted(o: Options, es: seq<Effect>)
  {
    if o.socketServer then HasFormat(es, CACHE)
    else if o.updatePackage.Some? then HasInstall(es, o.updatePackage.value)
    else (o.wipeData ==> HasFormat(es, DATA)) && (o.wipeCache ==> HasFormat(es, CACHE))
  }

  /** Since its last start the device has attempted the commanded work. */
  ghost predicate Worked(log: seq<Effect>, o: Options)
  {
    exists b :: 0 <= b <= |log| && Started !in log[b..] && Attempted(o, log[b..])
  }

  /** At some point a message was stored after the commanded work had been attempted in the same boot. */
  ghost predicate Done(log: seq<Effect>, o: Options)
  {
    exists e :: 0 <= e < |log| && log[e].Stored? && Worked(log[..e], o)
  }

  /** The message may be dropped now. */
  ghost predicate Ready(log: seq<Effect>, o: Options)
  {
    Worked(log, o) || Done(log, o)
  }

  /** The promise: the arguments are still there, or the work was attempted in the boot that dropped them. */
  ghost predicate Promise(st: State, args: seq<Arg>, o: Options)
  {
    WellSized(st.boot) && (Carries(st.boot, args) || Done(st.log, o))
  }

  lemma AttemptedMore(o: Options, es: seq<Effect>, more: seq<Effect>)
    requires Attempted(o, es)
    ensures Attempted(o, es + more)
  {
    assert forall i :: 0 <= i < |es| ==> (es + more)[i] == es[i];
    HasMore(es, more);
  }

  lemma HasMore(es: seq<Effect>, more: seq<Effect>)
    ensures forall root :: HasFormat(es, root) ==> HasFormat(es + more, root)
    ensures forall p :: HasInstall(es, p) ==> HasInstall(es + more, p)
  {
    forall root | HasFormat(es, root)
      ensures HasFormat(es + more, root)
    {
      var i :| 0 <= i < |es| && es[i].Formatted? && es[i].root == root;
      assert (es + more)[i] == es[i];
    }
    forall p | HasInstall(es, p)
      ensures HasInstall(es + more, p)
    {
      var i :| 0 <= i < |es| && es[i].Installed? && es[i].package == p;
      assert (es + more)[i] == es[i];
    }
  }

  lemma WorkedMore(log: seq<Effect>, o: Options, e: Effect)
    requires Worked(log, o) && e != Started
    ensures Worked(log + [e], o)
  {
    var b :| 0 <= b <= |log| && Started !in log[b..] && Attempted(o, log[b..]);
    AttemptedMore(o, log[b..], [e]);
    assert (log + [e])[b..] == log[b..] + [e];
  }

  lemma DoneMore(log: seq<Effect>, o: Options, e: Effect)
    ensures Done(log, o) ==> Done(log + [e], o)
    ensures Ready(log, o) && e.Stored? ==> Done(log + [e], o)
  {
    if k :| 0 <= k < |log| && log[k].Stored? && Worked(log[..k], o) {
      assert (log + [e])[..k] == log[..k];
    }
    assert (log + [e])[..|log|] == log;
  }

  lemma ReadyMore(log: seq<Effect>, o: Options, e: Effect)
    requires Ready(log, o) && e != Started
    ensures Ready(log + [e], o)
  {
    DoneMore(log, o, e);
    if Worked(log, o) { WorkedMore(log, o, e); }
  }

  // ---------------------------------------------------------------- the device

  /** On a sure device no store of the message and no removal of the command file fails. */
  class Device {
    const sure: bool
    var now: State
    var history: seq<State>

    ghost predicate Valid()
      reads this
    {
      history != [] && history[|history| - 1] == now && WellSized(now.boot)
    }

    constructor (st: State, sure: bool)
      requires WellSized(st.boot)
      ensures Valid() && now == st && history == [st] && this.sure == sure
    {
      this.sure, now, history := sure, st, [st];
    }

    /** One effect that power cannot be lost in the middle of. */
    method Act(st: State)
      requires WellSized(st.boot)
      modifies this
      ensures Valid() && now == st && history == old(history) + [st]
    {
      now, history := st, history + [st];
    }
  }

  /** All states since the first n keep the promise. */
  ghost predicate Kept(history: seq<State>, n: nat, args: seq<Arg>, o: Options)
  {
    forall i :: n <= i < |history| ==> Promise(history[i], args, o)
  }

  /** The device has only gone on since, and has kept the promise all the way. */
  twostate predicate Keeps(dev: Device, args: seq<Arg>, o: Options)
    reads dev
  {
    && dev.Valid() && Promise(dev.now, args, o)
    && old(dev.now).log <= dev.now.log && old(dev.history) <= dev.history &&
        Kept(dev.history, |old(dev.history)|, args, o)
  }

  /** set_bootloader_message (bootloader.c:75-121), which may fail. */
  method SetMessage(dev: Device, m: Message, ghost args: seq<Arg>, ghost o: Options) returns (ok: bool)
    requires dev.Valid() && WellSized(m) && Promise(dev.now, args, o) && (Ready(dev.now.log, o) || Carries(m, args))
    modifies dev
    ensures Keeps(dev, args, o)
    ensures dev.now == if ok then State(m, old(dev.now).commandFile, old(dev.now).log + [Stored(m)]) else old(dev.now)
    ensures old(Ready(dev.now.log, o)) ==> Ready(dev.now.log, o)
    ensures dev.sure ==> ok
  {
    hide Carries, Ready;
    ok := *;
    ok := ok || dev.sure;
    if ok {
      DoneMore(dev.now.log, o, Stored(m));
      if Ready(dev.now.log, o) { ReadyMore(dev.now.log, o, Stored(m)); }
      dev.Act(State(m, dev.now.commandFile, dev.now.log + [Stored(m)]));
    }
  }

  /** An effect that leaves the boot message alone. */
  method Note(dev: Device, e: Effect, commandFile: Option<string>, ghost args: seq<Arg>, ghost o: Options)
    requires dev.Valid() && !e.Stored? && Promise(dev.now, args, o)
    modifies dev
    ensures Keeps(dev, args, o)
    ensures dev.now == State(old(dev.now).boot, commandFile, old(dev.now).log + [e])
    ensures e != Started && old(Ready(dev.now.log, o)) ==> Ready(dev.now.log, o)
  {
    hide Carries, Ready;
    DoneMore(dev.now.log, o, e);
    if e != Started && Ready(dev.now.log, o) { ReadyMore(dev.now.log, o, e); }
    dev.Act(State(dev.now.boot, commandFile, dev.now.log + [e]));
  }

  // ---------------------------------------------------------------- the steps of a boot

  /** get_args up to its last call (recovery.c:172-229): the arguments, and the message to store for them. */
  method FetchArgs(given: seq<Arg>, boot: Message, commandFile: Option<string>)
    returns (got: Option<seq<Arg>>, m: Message)
    requires WellSized(boot) && forall i :: 0 <= i < |given| ==> NUL !in given[i]
    ensures got == Chosen(given, boot, commandFile)
    ensures got.Some? ==> WellSized(m) && CString(m.command) == BOOT_RECOVERY && m.status == boot.status
    ensures got.Some? ==> Decode(m.recovery) == Reread(got.value)
    ensures got.Some? ==> (Carries(m, got.value) <==> Fits(got.value))
  {
    hide Decode, Reread, FileArgs, CString, Strlcpy, Fits;
    var args := given;
    if args == [] {
      var r := ReadMessage(boot.recovery);
      DecodedFits(boot.recovery);
      FitsClean(boot.recovery);
      if r.Some? { args := r.value; }
    }
    if args == [] && commandFile.Some? {
      var r := ReadCommandFile(commandFile.value);
      if r.None? {
        return None, boot;
      }
      args := r.value;
    }
    assert forall i :: 0 <= i < |args| ==> NUL !in args[i];
    StrlcpyReads(boot.command, BOOT_RECOVERY);
    var field := StoreArgs(boot.recovery, args);
    RereadExact(args);
    m := Message(Strlcpy(boot.command, BOOT_RECOVERY), boot.status, field);
    got := Some(args);
  }

  lemma FitsClean(field: string)
    requires |field| == FIELD
    ensures Decode(field).Some? && Fits(Decode(field).value) ==> AllClean(Decode(field).value)
  {
  }

  /** get_bootloader_message into a zeroed structure (recovery.c:173-175): a failed read leaves the zeros. */
  method GetMessage(dev: Device, readable: bool) returns (m: Message)
    requires dev.Valid()
    ensures WellSized(m) && (readable ==> m == dev.now.boot)
  {
    m := ZEROED;
    var lucky: bool := *;
    if readable || lucky { m := dev.now.boot; }
  }

  /** format_root_device: formatting the cache loses the command file, perhaps before it is done. */
  method Format(dev: Device, root: Root, ghost args: seq<Arg>, ghost o: Options) returns (ok: bool)
    requires dev.Valid() && Promise(dev.now, args, o)
    modifies dev
    ensures Keeps(dev, args, o)
    ensures dev.now.boot == old(dev.now).boot && dev.now.log == old(dev.now).log + [Formatted(root, ok)]
    ensures old(Ready(dev.now.log, o)) ==> Ready(dev.now.log, o)
  {
    hide Ready, Carries, Done;
    ok := *;
    var lost: bool := *;
    if root == CACHE && lost {
      dev.Act(State(dev.now.boot, None, dev.now.log));
    }
    Note(dev, Formatted(root, ok), if root == CACHE && ok then None else dev.now.commandFile, args, o);
  }

  /**
   finish_recovery (recovery.c:247-292), less the log and the intent file: clears the message, then removes the command
   file.
   */
  method FinishRecovery(dev: Device, ghost args: seq<Arg>, ghost o: Options) returns (cleared: bool)
    requires dev.Valid() && Promise(dev.now, args, o) && Ready(dev.now.log, o)
    modifies dev
    ensures Keeps(dev, args, o)
    ensures Ready(dev.now.log, o) && dev.now.boot == if cleared then ZEROED else old(dev.now).boot
    ensures dev.sure ==>
              cleared && Cleared(dev.now) && dev.now.log == old(dev.now).log + [Stored(ZEROED), CommandRemoved]
  {
    hide Ready, Carries, Done;
    cleared := SetMessage(dev, ZEROED, args, o);
    var removed: bool := *;
    if removed || dev.sure { Note(dev, CommandRemoved, None, args, o); }
  }

  /** Nothing is left that would make recovery start again, or do anything when it does. */
  ghost predicate Cleared(st: State)
  {
    st.boot == ZEROED && st.commandFile == None
  }

  /** So the next boot has no arguments, and the bootloader does not start recovery. */
  lemma ClearedTakesNothing(st: State)
    requires Cleared(st)
    ensures Chosen([], st.boot, st.commandFile) == Some([]) && CString(st.boot.command) == ""
  {
    FaultForgets();
    CStringIs(Zeros(COMMAND_FIELD), "");
  }

  /** The choices of the menu (recovery.c:469-524). */
  datatype Choice = Reboot | MenuWipeData | MenuWipeCache | ApplySdcard(package: string) | Nothing

  /** What a choice has to leave in the log, after the message was cleared for it. */
  ghost predicate Served(choice: Choice, es: seq<Effect>, sure: bool)
  {
    (sure ==> |es| >= 2 && es[..2] == [Stored(ZEROED), CommandRemoved]) && Acted(choice, es)
  }

  ghost predicate Acted(choice: Choice, es: seq<Effect>)
  {
    match choice
    case Reboot => true
    case MenuWipeData => HasFormat(es, DATA) && HasFormat(es, CACHE) && exists i :: 0 <= i < |es| && es[i].DeviceWiped?
    case MenuWipeCache => HasFormat(es, CACHE)
    case ApplySdcard(package) => HasInstall(es, package)
    case Nothing => true
  }

  /** The choices up to the first reboot have been served one after the other since the first n effects. */
  ghost predicate AllServed(choices: seq<Choice>, k: nat, log: seq<Effect>, n: nat, sure: bool)
    decreases k
  {
    && k <= |choices| && n <= |log|
    && if k == 0 then n == |log|
       else exists m :: n <= m <= |log| && Served(choices[k - 1], log[m..], sure) &&
              AllServed(choices, k - 1, log[..m], n, sure)
  }

  /** How many choices are made: up to and with the first reboot. */
  ghost function Made(choices: seq<Choice>): (k: nat)
    ensures k <= |choices| && (k < |choices| ==> k > 0 && choices[k - 1].Reboot?)
    ensures forall i :: 0 <= i < k - 1 ==> !choices[i].Reboot?
  {
    if choices == [] then 0 else if choices[0].Reboot? then 1 else 1 + Made(choices[1..])
  }

  lemma {:induction false} MadeIs(choices: seq<Choice>, k: nat)
    requires k <= |choices| && (k < |choices| ==> k > 0 && choices[k - 1].Reboot?)
    requires forall i :: 0 <= i < k - 1 ==> !choices[i].Reboot?
    ensures Made(choices) == k
  {
    if choices != [] && !choices[0].Reboot? {
      MadeIs(choices[1..], k - 1);
    }
  }

  lemma ServedNext(choices: seq<Choice>, k: nat, before: seq<Effect>, log: seq<Effect>, n: nat, sure: bool)
    requires k < |choices| && AllServed(choices, k, before, n, sure) && before <= log
    requires Served(choices[k], log[|before|..], sure)
    ensures AllServed(choices, k + 1, log, n, sure)
  {
    hide Served;
    assert log[..|before|] == before;
  }

  /**
   prompt_and_wait (recovery.c:465-527): the message is cleared before every choice, so every choice is safe; and every
   choice is served, until one is to reboot.
   */
  method PromptAndWait(dev: Device, choices: seq<Choice>, ghost args: seq<Arg>, ghost o: Options)
    requires dev.Valid() && Promise(dev.now, args, o) && Ready(dev.now.log, o)
    modifies dev
    ensures Keeps(dev, args, o) && Ready(dev.now.log, o)
    ensures AllServed(choices, Made(choices), dev.now.log, |old(dev.now).log|, dev.sure)
  {
    hide Ready, Promise, WellSized, Served, AllServed;
    NothingServed(choices, dev.now.log, dev.sure);
    for i := 0 to |choices|
      invariant dev.Valid() && Promise(dev.now, args, o) && Ready(dev.now.log, o)
      invariant old(dev.now).log <= dev.now.log && old(dev.history) <= dev.history &&
                Kept(dev.history, |old(dev.history)|, args, o)
      invariant AllServed(choices, i, dev.now.log, |old(dev.now).log|, dev.sure)
      invariant forall k :: 0 <= k < i ==> !choices[k].Reboot?
    {
      ghost var before := dev.now.log;
      Serve(dev, choices[i], args, o);
      ServedNext(choices, i, before, dev.now.log, |old(dev.now).log|, dev.sure);
      if choices[i].Reboot? {
        MadeIs(choices, i + 1);
        return;
      }
    }
    MadeIs(choices, |choices|);
  }

  lemma NothingServed(choices: seq<Choice>, log: seq<Effect>, sure: bool)
    ensures AllServed(choices, 0, log, |log|, sure)
  {
  }

  /** One round of the menu. */
  method Serve(dev: Device, choice: Choice, ghost args: seq<Arg>, ghost o: Options)
    requires dev.Valid() && Promise(dev.now, args, o) && Ready(dev.now.log, o)
    modifies dev
    ensures Keeps(dev, args, o) && Ready(dev.now.log, o)
    ensures Served(choice, dev.now.log[|old(dev.now).log|..], dev.sure)
  {
    hide Ready, Promise, WellSized, Served, Acted, Cleared;
    var _ := FinishRecovery(dev, args, o);
    ghost var mid := dev.now.log;
    ghost var es := Choose(dev, choice, args, o);
    ServedIs(choice, old(dev.now).log, mid, es, dev.sure);
  }

  lemma ServedIs(choice: Choice, log: seq<Effect>, mid: seq<Effect>, es: seq<Effect>, sure: bool)
    requires log <= mid && Acted(choice, es) && (sure ==> mid == log + [Stored(ZEROED), CommandRemoved])
    ensures Served(choice, (mid + es)[|log|..], sure)
  {
    hide Acted;
    var all := (mid + es)[|log|..];
    assert all == mid[|log|..] + es;
    ActedAfter(choice, mid[|log|..], es);
  }

  lemma ActedAfter(choice: Choice, before: seq<Effect>, es: seq<Effect>)
    requires Acted(choice, es)
    ensures Acted(choice, before + es)
  {
    var all := before + es;
    assert forall i :: 0 <= i < |es| ==> all[|before| + i] == es[i];
    if choice.MenuWipeData? {
      FormatAfter(before, es, DATA);
      var i :| 0 <= i < |es| && es[i].DeviceWiped?;
      assert all[|before| + i].DeviceWiped?;
    }
    FormatAfter(before, es, CACHE);
    if choice.ApplySdcard? {
      var i :| 0 <= i < |es| && es[i].Installed? && es[i].package == choice.package;
      assert all[|before| + i].Installed?;
    }
  }

  lemma FormatAfter(before: seq<Effect>, es: seq<Effect>, root: Root)
    ensures HasFormat(es, root) ==> HasFormat(before + es, root)
  {
    if i :| 0 <= i < |es| && es[i].Formatted? && es[i].root == root { assert (before + es)[|before| + i] == es[i]; }
  }

  /** What is done for a choice. */
  method Choose(dev: Device, choice: Choice, ghost args: seq<Arg>, ghost o: Options) returns (ghost es: seq<Effect>)
    requires dev.Valid() && Promise(dev.now, args, o) && Ready(dev.now.log, o)
    modifies dev
    ensures Keeps(dev, args, o) && Ready(dev.now.log, o)
    ensures dev.now.log == old(dev.now).log + es && Acted(choice, es)
  {
    hide Ready, Promise, WellSized;
    es := [];
    match choice
    case Reboot =>
    case MenuWipeData =>
      es := WipeAll(dev, args, o);
    case MenuWipeCache =>
      var ok := Format(dev, CACHE, args, o);
      es := [Formatted(CACHE, ok)];
      assert es[0].Formatted?;
    case ApplySdcard(package) =>
      var m := SdcardMessage();
      var stored := SetMessage(dev, m, args, o);
      var ok: bool := *;
      Note(dev, Installed(package, ok), dev.now.commandFile, args, o);
      es := (if stored then [Stored(m)] else []) + [Installed(package, ok)];
      assert es[|es| - 1].Installed?;
    case Nothing =>
  }

  /** wipe_data (recovery.c:398-402), confirmed if it had to be. */
  method WipeAll(dev: Device, ghost args: seq<Arg>, ghost o: Options) returns (ghost es: seq<Effect>)
    requires dev.Valid() && Promise(dev.now, args, o) && Ready(dev.now.log, o)
    modifies dev
    ensures Keeps(dev, args, o) && Ready(dev.now.log, o)
    ensures dev.now.log == old(dev.now).log + es && Acted(MenuWipeData, es)
  {
    hide Ready, Promise, WellSized;
    var okDevice: bool := *;
    Note(dev, DeviceWiped(okDevice), dev.now.commandFile, args, o);
    var okData := Format(dev, DATA, args, o);
    var okCache := Format(dev, CACHE, args, o);
    es := [DeviceWiped(okDevice), Formatted(DATA, okData), Formatted(CACHE, okCache)];
    assert es[0].DeviceWiped? && es[1].Formatted? && es[2].Formatted?;
  }

  /** set_sdcard_update_bootloader_message (recovery.c:233-240): recovery again, without arguments. */
  method SdcardMessage() returns (m: Message)
    ensures WellSized(m) && Carries(m, [])
  {
    hide Decode, CString, Strlcpy, Zeros;
    StrlcpyReads(ZEROED.command, BOOT_RECOVERY);
    var field := StoreArgs(ZEROED.recovery, []);
    FaultForgets();
    m := Message(Strlcpy(ZEROED.command, BOOT_RECOVERY), ZEROED.status, field);
  }

  function Failed(e: Effect): (b: bool)
  {
    match e
    case DeviceWiped(ok) => !ok
    case Formatted(_, ok) => !ok
    case Installed(_, ok) => !ok
    case _ => false
  }

  /** What a status has to say about the work done: success means there was some, and all of it succeeded. */
  ghost predicate Reports(status: Status, o: Options, work: seq<Effect>)
  {
    status == InstallSuccess <==>
      (o.updatePackage.Some? || o.wipeData || o.wipeCache) && forall i :: 0 <= i < |work| ==> !Failed(work[i])
  }

  /** The effects of a command, in order: a package alone; else the device's own wipe with DATA, and CACHE, as asked. */
  ghost predicate WorkFor(o: Options, work: seq<Effect>)
  {
    if o.updatePackage.Some? then |work| == 1 && work[0].Installed? && work[0].package == o.updatePackage.value
    else
      var n := if o.wipeData then 2 else 0;
      && |work| == n + (if o.wipeCache then 1 else 0)
      && (o.wipeData ==> work[0].DeviceWiped? && work[1].Formatted? && work[1].root == DATA)
      && (o.wipeCache ==> work[n].Formatted? && work[n].root == CACHE)
  }

  /** The branches of main that carry out a command (recovery.c:590-603). */
  method Execute(dev: Device, o: Options, ghost args: seq<Arg>, ghost p: Options)
    returns (status: Status, ghost work: seq<Effect>)
    requires dev.Valid() && Promise(dev.now, args, p) && !o.socketServer
    modifies dev
    ensures Keeps(dev, args, p)
    ensures dev.now.boot == old(dev.now).boot && dev.now.log == old(dev.now).log + work
    ensures Started !in work && Attempted(o, work) && Reports(status, o, work) && WorkFor(o, work)
  {
    hide Promise, WellSized, Ready;
    status := InstallSuccess;
    work := [];
    if o.updatePackage.Some? {
      var ok: bool := *;
      Note(dev, Installed(o.updatePackage.value, ok), dev.now.commandFile, args, p);
      if !ok { status := InstallError; }
      work := [Installed(o.updatePackage.value, ok)];
      assert work[0].Installed? && (Failed(work[0]) <==> !ok);
    } else if o.wipeData {
      var okDevice: bool := *;
      Note(dev, DeviceWiped(okDevice), dev.now.commandFile, args, p);
      if !okDevice { status := InstallError; }
      var okData := Format(dev, DATA, args, p);
      if !okData { status := InstallError; }
      work := [DeviceWiped(okDevice), Formatted(DATA, okData)];
      assert work[1].Formatted? && (Failed(work[0]) <==> !okDevice) && (Failed(work[1]) <==> !okData);
      if o.wipeCache {
        var okCache := Format(dev, CACHE, args, p);
        if !okCache { status := InstallError; }
        work := work + [Formatted(CACHE, okCache)];
        assert work[1].Formatted? && work[2].Formatted? && (Failed(work[2]) <==> !okCache);
        assert (Failed(work[0]) <==> !okDevice) && (Failed(work[1]) <==> !okData);
      }
    } else if o.wipeCache {
      var okCache := Format(dev, CACHE, args, p);
      if !okCache { status := InstallError; }
      work := [Formatted(CACHE, okCache)];
      assert work[0].Formatted? && (Failed(work[0]) <==> !okCache);
    } else {
      status := InstallError;
    }
  }

  /** The end of main (recovery.c:605-613): whichever way it goes, the work has been attempted by now. */
  method WindUp(dev: Device, prompt: bool, choices: seq<Choice>, ghost args: seq<Arg>, ghost o: Options)
    requires dev.Valid() && Promise(dev.now, args, o) && Ready(dev.now.log, o)
    modifies dev
    ensures Keeps(dev, args, o)
    ensures dev.sure ==> Cleared(dev.now)
    ensures dev.sure && !prompt ==> dev.now.log == old(dev.now).log + [Stored(ZEROED), CommandRemoved]
  {
    hide Ready, Promise, WellSized, Cleared;
    if prompt { PromptAndWait(dev, choices, args, o); }
    var _ := FinishRecovery(dev, args, o);
  }

  lemma WorkDone(before: seq<Effect>, work: seq<Effect>, o: Options)
    requires Started !in work && Attempted(o, work)
    ensures Ready(before + work, o)
  {
    assert (before + work)[|before|..] == work;
  }

  /** The effects work happened one after the other. */
  ghost predicate Within(work: seq<Effect>, log: seq<Effect>)
  {
    exists before: seq<Effect> :: before + work <= log
  }

  /** The next boot that can read message and command file takes these arguments, and they fit the message. */
  ghost predicate Takes(st: State, args: seq<Arg>)
  {
    WellSized(st.boot) && Chosen([], st.boot, st.commandFile) == Some(args) && Fits(args)
  }

  /** The promise, from the moment a command file is all that holds the arguments. */
  ghost predicate Pledge(st: State, args: seq<Arg>, o: Options)
  {
    Promise(st, args, o) || Takes(st, args)
  }

  /**
   What a boot may start from: a state that keeps the promise, the message being readable unless it is no longer needed;
   or on a sure device, message and command file being readable, one that gives the arguments in any way.
   */
  ghost predicate Startable(dev: Device, readable: bool, opens: bool, args: seq<Arg>, o: Options)
    reads dev
  {
    || (Promise(dev.now, args, o) && (readable || Done(dev.now.log, o)))
    || (dev.sure && readable && opens && Takes(dev.now, args))
  }

  /** get_args (recovery.c:172-231): the arguments are taken and stored in the message. */
  method TakeArgs(dev: Device, readable: bool, opens: bool, ghost args: seq<Arg>, ghost o: Options)
    returns (got: Option<seq<Arg>>)
    requires dev.Valid() && args != [] && Startable(dev, readable, opens, args, o)
    modifies dev
    ensures dev.Valid() && old(dev.history) <= dev.history && old(dev.now).log + [Started] <= dev.now.log
    ensures forall i :: |old(dev.history)| <= i < |dev.history| ==> Pledge(dev.history[i], args, o)
    ensures old(Promise(dev.now, args, o)) ==> Kept(dev.history, |old(dev.history)|, args, o)
    ensures got.Some? ==> Promise(dev.now, args, o)
    ensures if old(Done(dev.now.log, o)) then Ready(dev.now.log, o) else got == Some(args)
    ensures dev.sure && got.Some? ==> dev.now.log == old(dev.now).log + [Started, Stored(dev.now.boot)]
    ensures dev.sure && !old(Done(dev.now.log, o)) ==> Carries(dev.now.boot, args)
  {
    hide Worked, Attempted, Decode, FileArgs, CString, Fits, Reread;
    ghost var over := Done(dev.now.log, o);
    DoneMore(dev.now.log, o, Started);
    dev.Act(State(dev.now.boot, dev.now.commandFile, dev.now.log + [Started]));
    var m := GetMessage(dev, readable);
    var message;
    var file := if opens then dev.now.commandFile else None;
    got, message := FetchArgs([], m, file);
    if !over && Carries(dev.now.boot, args) { RestartTakesSame(m, args, file); RereadExact(args); }
    if got.None? { return; }
    var ok: bool := *;
    if ok || dev.sure {
      DoneMore(dev.now.log, o, Stored(message));
      dev.Act(State(message, dev.now.commandFile, dev.now.log + [Stored(message)]));
    }
    hide Carries, Done;
  }

  /**
   One start of recovery by init, without arguments of its own (recovery.c:537-614).  If the boot message carries args,
   or on a sure device the command file gives them, the boot takes them, stores them, and drops them only after
   attempting what they command; the status tells whether everything attempted succeeded.  Each state on the way keeps
   the promise.  On a sure device a boot that gets to its end has dropped them, and if it needed no menu its effects are
   exactly those of taking, storing, working and dropping.
   */
  method Boot(dev: Device, readable: bool, opens: bool, visible: bool, parse: seq<Arg> -> Options, choices: seq<Choice>,
      ghost args: seq<Arg>)
    returns (status: Option<Status>, ghost work: seq<Effect>)
    requires dev.Valid() && args != [] && Startable(dev, readable, opens, args, parse(args))
    modifies dev
    ensures dev.Valid() && old(dev.now).log + [Started] <= dev.now.log && old(dev.history) <= dev.history
    ensures forall i :: |old(dev.history)| <= i < |dev.history| ==> Pledge(dev.history[i], args, parse(args))
    ensures old(Promise(dev.now, args, parse(args))) ==> Kept(dev.history, |old(dev.history)|, args, parse(args))
    ensures status.Some? ==> Promise(dev.now, args, parse(args))
    ensures !old(Done(dev.now.log, parse(args))) ==>
              status.Some? && Within(work, dev.now.log) && Attempted(parse(args), work) && Started !in work
    ensures !old(Done(dev.now.log, parse(args))) && !parse(args).socketServer ==>
              Reports(status.value, parse(args), work) && WorkFor(parse(args), work)
    ensures dev.sure && status.Some? ==> Cleared(dev.now)
    ensures dev.sure && !old(Done(dev.now.log, parse(args))) && !parse(args).socketServer &&
            status == Some(InstallSuccess) && !visible ==>
              exists m :: Carries(m, args) && dev.now.log == Undisturbed(old(dev.now).log, m, work)
  {
    hide Startable, Promise, Pledge, Takes, Done, Ready, Attempted, Reports, WorkFor, Carries, Cleared, Within, Kept,
        Undisturbed;
    ghost var o, before := parse(args), |dev.history|;
    ghost var over, log := Done(dev.now.log, o), dev.now.log;
    var got := TakeArgs(dev, readable, opens, args, o);
    if got.None? {
      return None, [];
    }
    ghost var m, first, taken := dev.now.boot, dev.history, dev.now.log;
    var opts := parse(got.value);
    status, work := Perform(dev, opts, visible, choices, args, o);
    BootKeeps(dev.history, before, first, args, o);
    UndisturbedIs(log, m, taken, work, dev.now.log);
  }

  /** The effects of a boot that takes, stores, works and drops. */
  ghost function Undisturbed(log: seq<Effect>, m: Message, work: seq<Effect>): (r: seq<Effect>)
  {
    log + [Started, Stored(m)] + work + [Stored(ZEROED), CommandRemoved]
  }

  lemma UndisturbedIs(log: seq<Effect>, m: Message, taken: seq<Effect>, work: seq<Effect>, end: seq<Effect>)
    ensures taken == log + [Started, Stored(m)] && end == taken + work + [Stored(ZEROED), CommandRemoved] ==>
              end == Undisturbed(log, m, work)
  {
  }

  /** A part that keeps the pledge followed by one that keeps the promise. */
  lemma BootKeeps(history: seq<State>, n: nat, first: seq<State>, args: seq<Arg>, o: Options)
    requires n <= |first| && first <= history && Kept(history, |first|, args, o)
    ensures (forall i :: n <= i < |first| ==> Pledge(first[i], args, o)) ==>
              forall i :: n <= i < |history| ==> Pledge(history[i], args, o)
    ensures Kept(first, n, args, o) ==> Kept(history, n, args, o)
  {
    hide Promise, Takes;
    assert forall i :: 0 <= i < |first| ==> history[i] == first[i];
  }

  lemma DoneReady(log: seq<Effect>, o: Options)
    requires Done(log, o)
    ensures Ready(log, o)
  {
  }

  /** main from its dispatch on (recovery.c:580-613). */
  method Perform(dev: Device, opts: Options, visible: bool, choices: seq<Choice>, ghost args: seq<Arg>,
      ghost o: Options)
    returns (status: Option<Status>, ghost work: seq<Effect>)
    requires dev.Valid() && Promise(dev.now, args, o) && (Ready(dev.now.log, o) || opts == o)
    modifies dev
    ensures Keeps(dev, args, o)
    ensures status.Some? && Within(work, dev.now.log) && Attempted(opts, work) && Started !in work
    ensures !opts.socketServer ==> Reports(status.value, opts, work) && WorkFor(opts, work)
    ensures dev.sure ==> Cleared(dev.now)
    ensures dev.sure && !opts.socketServer && status == Some(InstallSuccess) && !visible ==>
              dev.now.log == old(dev.now).log + work + [Stored(ZEROED), CommandRemoved]
  {
    hide Ready, Promise, WellSized, Reports, Cleared, AllServed, WorkFor;
    ghost var before := dev.now.log;
    var result;
    if opts.socketServer {
      var ok := Format(dev, CACHE, args, o);
      work := [Formatted(CACHE, ok)];
      assert work[0].Formatted?;
      hide Attempted;
      if opts == o { WorkDone(before, work, o); }
      var _ := FinishRecovery(dev, args, o);
      result := *;
      PromptAndWait(dev, choices, args, o);
    } else {
      hide Attempted;
      result, work := Execute(dev, opts, args, o);
      if opts == o { WorkDone(before, work, o); } else { ReadyAfter(before, work, o); }
    }
    WindUp(dev, result != InstallSuccess || visible, choices, args, o);
    assert before + work <= dev.now.log;
    status := Some(result);
  }

  lemma {:induction false} ReadyAfter(before: seq<Effect>, work: seq<Effect>, o: Options)
    requires Ready(before, o) && Started !in work
    ensures Ready(before + work, o)
    decreases |work|
  {
    if work == [] {
      assert before + work == before;
    } else {
      ReadyMore(before, o, work[0]);
      ReadyAfter(before + [work[0]], work[1..], o);
      assert before + work == before + [work[0]] + work[1..];
    }
  }

  // ---------------------------------------------------------------- any number of boots

  /**
   A boot that is cut short, or not: whether the command file opens, the menu, and after how many effects power goes.
   */
  datatype PowerCut = PowerCut(opens: bool, visible: bool, choices: seq<Choice>, effects: nat)

  /** The arguments are in the boot message; or, where no store fails and the command file can be read, given by it. */
  ghost predicate Entrusted(start: State, cuts: seq<PowerCut>, args: seq<Arg>, sure: bool)
  {
    || Carries(start.boot, args)
    || (sure && Takes(start, args) && forall k :: 0 <= k < |cuts| ==> cuts[k].opens)
  }

  /**
   Any number of boots, each losing power after any number of effects and starting from what was left: at every
   moment the arguments are still in the boot message, or the work was attempted in the boot that dropped them; or they
   are yet to be taken from the command file, if that is where they were.
   */
  method Reboots(start: State, cuts: seq<PowerCut>, parse: seq<Arg> -> Options, ghost args: seq<Arg>, sure: bool)
    returns (seen: seq<State>)
    requires args != [] && Entrusted(start, cuts, args, sure)
    ensures |seen| > |cuts| && seen[0] == start
    ensures forall i :: 0 <= i < |seen| ==> Pledge(seen[i], args, parse(args))
    ensures Carries(start.boot, args) ==> forall i :: 0 <= i < |seen| ==> Promise(seen[i], args, parse(args))
  {
    ghost var o, carried := parse(args), Carries(start.boot, args);
    StartPledged(start, args, o);
    hide Promise, Carries, Attempted, Reports, Done, Takes, Pledge, Cleared, Startable, Undisturbed;
    seen := [start];
    var st := start;
    for k := 0 to |cuts|
      invariant |seen| > k && seen[0] == start && st == seen[|seen| - 1]
      invariant forall i :: 0 <= i < |seen| ==> Pledge(seen[i], args, o)
      invariant carried ==> forall i :: 0 <= i < |seen| ==> Promise(seen[i], args, o)
    {
      PledgeSized(st, args, o);
      var dev := new Device(st, sure);
      Starts(dev, cuts[k].opens, args, o, carried);
      var _, _ := Boot(dev, true, cuts[k].opens, cuts[k].visible, parse, cuts[k].choices, args);
      var n := if cuts[k].effects < |dev.history| then cuts[k].effects else |dev.history| - 1;
      st := dev.history[n];
      seen := seen + dev.history[..n + 1];
    }
  }

  lemma StartPledged(start: State, args: seq<Arg>, o: Options)
    ensures Carries(start.boot, args) ==> Promise(start, args, o)
    ensures Promise(start, args, o) || Takes(start, args) ==> Pledge(start, args, o)
  {
    hide Takes;
  }

  lemma Starts(dev: Device, opens: bool, args: seq<Arg>, o: Options, carried: bool)
    requires Pledge(dev.now, args, o) && (if carried then Promise(dev.now, args, o) else dev.sure && opens)
    ensures Startable(dev, true, opens, args, o)
  {
    hide Promise, Takes;
  }

  lemma PledgeSized(st: State, args: seq<Arg>, o: Options)
    requires Pledge(st, args, o)
    ensures WellSized(st.boot)
  {
  }

  /**
   And one boot on a sure device that is let run to its end has attempted the work and dropped the arguments, so that
   the next one has none.
   */
  method RebootsThenDone(start: State, cuts: seq<PowerCut>, last: PowerCut, parse: seq<Arg> -> Options,
      ghost args: seq<Arg>) returns (seen: seq<State>, end: State)
    requires args != [] && Entrusted(start, cuts + [last], args, true)
    ensures |seen| > |cuts| && seen[0] == start && forall i :: 0 <= i < |seen| ==> Pledge(seen[i], args, parse(args))
    ensures seen[|seen| - 1].log <= end.log
    ensures !Done(seen[|seen| - 1].log, parse(args)) ==>
              && Cleared(end) && Done(end.log, parse(args)) && Chosen([], end.boot, end.commandFile) == Some([])
  {
    ghost var carried := Carries(start.boot, args);
    assert (cuts + [last])[|cuts|] == last && forall k :: 0 <= k < |cuts| ==> (cuts + [last])[k] == cuts[k];
    hide Promise, Carries, Done, Takes, Pledge, Cleared;
    seen := Reboots(start, cuts, parse, args, true);
    end := LastBoot(seen[|seen| - 1], last, parse, args, carried);
  }

  method LastBoot(st: State, last: PowerCut, parse: seq<Arg> -> Options, ghost args: seq<Arg>, ghost carried: bool)
    returns (end: State)
    requires args != [] && Pledge(st, args, parse(args)) && (carried ==> Promise(st, args, parse(args)))
    requires carried || last.opens
    ensures st.log <= end.log
    ensures !Done(st.log, parse(args)) ==>
              && Cleared(end) && Done(end.log, parse(args)) && Chosen([], end.boot, end.commandFile) == Some([])
  {
    PledgeSized(st, args, parse(args));
    hide Promise, Carries, Attempted, Reports, Done, Takes, Pledge, Cleared, Startable, Undisturbed, Chosen;
    var dev := new Device(st, true);
    Starts(dev, last.opens, args, parse(args), carried);
    var _, _ := Boot(dev, true, last.opens, last.visible, parse, last.choices, args);
    end := dev.now;
    if !Done(st.log, parse(args)) { ClearedDone(end, args, parse(args)); }
  }

  lemma ClearedDone(st: State, args: seq<Arg>, o: Options)
    requires Cleared(st) && Promise(st, args, o)
    ensures Done(st.log, o) && Chosen([], st.boot, st.commandFile) == Some([])
  {
    ClearedTakesNothing(st);
    ZeroedDecodes();
    hide Done, Chosen;
  }

  /** For a factory reset: once the message no longer carries it, both partitions had been formatted in one boot. */
  lemma FactoryReset(st: State, args: seq<Arg>, o: Options)
    requires Promise(st, args, o) && !o.socketServer && o.updatePackage.None? && o.wipeData && o.wipeCache
    ensures Carries(st.boot, args) ||
            exists b, i, j, e :: 0 <= b <= i < e < |st.log| && b <= j < e && st.log[e].Stored? &&
                Started !in st.log[b..e] &&
              st.log[i].Formatted? && st.log[i].root == DATA && st.log[j].Formatted? && st.log[j].root == CACHE
  {
    hide Carries;
    if !Carries(st.boot, args) {
      var log := st.log;
      var e :| 0 <= e < |log| && log[e].Stored? && Worked(log[..e], o);
      var b :| 0 <= b <= |log[..e]| && Started !in log[..e][b..] && Attempted(o, log[..e][b..]);
      var es := log[..e][b..];
      assert es == log[b..e];
      hide Worked;
      var i :| 0 <= i < |es| && es[i].Formatted? && es[i].root == DATA;
      var j :| 0 <= j < |es| && es[j].Formatted? && es[j].root == CACHE;
      assert log[b + i] == es[i] && log[b + j] == es[j];
    }
  }
}
