/**
 The arguments of recovery inside the boot message (recovery.c:172-231): one per line in a fixed 1024-byte
 field, written with strlcpy and strlcat and read back with strtok.
 */
module BootMessage {
  import opened Wrappers

  type Arg = string

  const NUL: char := '\0'
  const NEWLINE: char := '\n'
  const FIELD := 1024
  const MAX_ARGS := 100
  const MAX_ARG_LENGTH := 4096
  const TITLE: Arg := "recovery"

  /** struct bootloader_message (bootloader.h). */
  datatype Message = Message(command: string, status: string, recovery: string)

  // ---------------------------------------------------------------- C strings

  /** The characters before the first NUL. */
  function CString(f: string): (s: string)
    ensures |s| <= |f| && s == f[..|s|] && NUL !in s && (|s| < |f| ==> f[|s|] == NUL)
  {
    if f == [] || f[0] == NUL then [] else [f[0]] + CString(f[1..])
  }

  lemma {:induction false} CStringIs(f: string, s: string)
    requires NUL !in s && |s| <= |f| && s == f[..|s|] && (|s| < |f| ==> f[|s|] == NUL)
    ensures CString(f) == s
  {
    if s != [] {
      assert f[0] == s[0];
      CStringIs(f[1..], s[1..]);
    }
  }

  lemma {:induction false} EndsIn(f: string, k: nat)
    requires k < |f| && f[k] == NUL
    ensures |CString(f)| <= k
  {
    if k > 0 { EndsIn(f[1..], k - 1); }
  }

  function Cut(s: string, n: nat): (r: string)
    ensures |r| <= n && r <= s && (|s| <= n ==> r == s) && (|s| >= n ==> |r| == n)
  {
    if |s| <= n then s else s[..n]
  }

  /** Writes s and a NUL at index at of the buffer f. */
  function Overwrite(f: string, at: nat, s: string): (r: string)
    requires at + |s| < |f|
    ensures |r| == |f|
  {
    f[..at] + s + [NUL] + f[at + |s| + 1..]
  }

  function Strlcpy(f: string, src: string): (r: string)
    requires |f| > 0
    ensures |r| == |f|
  {
    Overwrite(f, 0, Cut(src, |f| - 1))
  }

  function Strlcat(f: string, src: string): (r: string)
    ensures |r| == |f|
  {
    var d := |CString(f)|;
    if d == |f| then f else Overwrite(f, d, Cut(src, |f| - 1 - d))
  }

  lemma OverwriteReads(f: string, at: nat, s: string)
    requires at + |s| < |f| && NUL !in f[..at] && NUL !in s
    ensures CString(Overwrite(f, at, s)) == f[..at] + s
  {
    CStringIs(Overwrite(f, at, s), f[..at] + s);
  }

  /** A terminated field reads as everything put into it, cut to the room there is. */
  lemma StrlcpyReads(f: string, src: string)
    requires |f| > 0 && NUL !in src
    ensures CString(Strlcpy(f, src)) == Cut(src, |f| - 1)
  {
    CutClean(src, |f| - 1);
    OverwriteReads(f, 0, Cut(src, |f| - 1));
  }

  lemma StrlcatReads(f: string, src: string)
    requires |CString(f)| < |f| && NUL !in src
    ensures CString(Strlcat(f, src)) == Cut(CString(f) + src, |f| - 1)
  {
    hide CString, Cut, Overwrite;
    var c := CString(f);
    var piece := Cut(src, |f| - 1 - |c|);
    assert Strlcat(f, src) == Overwrite(f, |c|, piece);
    hide Strlcat;
    assert f[..|c|] == c;
    CutClean(src, |f| - 1 - |c|);
    OverwriteReads(f, |c|, piece);
    CutAfter(c, src, |f| - 1);
  }

  lemma CutClean(s: string, n: nat)
    requires NUL !in s
    ensures NUL !in Cut(s, n)
  {
  }

  lemma CutAfter(s: string, src: string, n: nat)
    requires |s| <= n
    ensures s + Cut(src, n - |s|) == Cut(s + src, n)
  {
  }

  // ---------------------------------------------------------------- strtok

  /** How many characters s has before its first newline. */
  function Line(s: string): (n: nat)
    ensures n <= |s| && NEWLINE !in s[..n] && (n < |s| ==> s[n] == NEWLINE)
  {
    if s == [] || s[0] == NEWLINE then 0 else 1 + Line(s[1..])
  }

  function SkipNewlines(s: string): (r: string)
    ensures |r| <= |s| && (r != [] ==> r[0] != NEWLINE) && forall c :: c in r ==> c in s
  {
    if s != [] && s[0] == NEWLINE then SkipNewlines(s[1..]) else s
  }

  /** What repeated calls of strtok with newline return. */
  function Tokens(s: string): (r: seq<Arg>)
    decreases |s|
  {
    var p := SkipNewlines(s);
    if p == [] then [] else [p[..Line(p)]] + Tokens(p[Line(p)..])
  }

  /** An argument that a line of the field can hold. */
  predicate Clean(a: Arg)
  {
    a != [] && NEWLINE !in a && NUL !in a
  }

  predicate AllClean(args: seq<Arg>)
  {
    forall i :: 0 <= i < |args| ==> Clean(args[i])
  }

  /** One argument per line. */
  function Joined(args: seq<Arg>): (s: string)
  {
    if args == [] then [] else args[0] + [NEWLINE] + Joined(args[1..])
  }

  lemma {:induction false} TokensClean(s: string)
    requires NUL !in s
    ensures AllClean(Tokens(s)) && |Joined(Tokens(s))| <= |s| + 1
    decreases |s|
  {
    var p := SkipNewlines(s);
    if p != [] {
      var n := Line(p);
      TokensClean(p[n..]);
      assert Tokens(s)[1..] == Tokens(p[n..]);
      if n == |p| {
        assert p[n..] == [] && Tokens(p[n..]) == [];
      } else {
        TokensAfterNewline(p[n..]);
        TokensClean(p[n + 1..]);
        assert p[n..][1..] == p[n + 1..];
      }
    }
  }

  lemma TokensAfterNewline(s: string)
    requires s != [] && s[0] == NEWLINE
    ensures Tokens(s) == Tokens(s[1..])
  {
  }

  /** A line ends at or before any newline. */
  lemma {:induction false} LineBefore(s: string, k: nat)
    requires k <= |s|
    ensures k < |s| && s[k] == NEWLINE ==> Line(s) <= k
  {
    if k > 0 { LineBefore(s[1..], k - 1); }
  }

  lemma LineIs(a: Arg, rest: string)
    requires Clean(a) && (rest != [] ==> rest[0] == NEWLINE)
    ensures Line(a + rest) == |a| && SkipNewlines(a + rest) == a + rest
    ensures Tokens(a + rest) == [a] + Tokens(rest)
  {
    var n := Line(a + rest);
    assert forall k :: 0 <= k < |a| ==> (a + rest)[k] == a[k] != NEWLINE;
    assert |a| < |a + rest| ==> (a + rest)[|a|] == NEWLINE;
    LineBefore(a + rest, |a|);
    assert (a + rest)[..|a|] == a && (a + rest)[|a|..] == rest;
  }

  /** Splitting undoes joining. */
  lemma {:induction false} TokensJoined(args: seq<Arg>)
    requires AllClean(args)
    ensures Tokens(Joined(args)) == args
  {
    if args != [] {
      TokensJoined(args[1..]);
      TokensCons(args[0], Joined(args[1..]));
      assert args == [args[0]] + args[1..];
    }
  }

  lemma TokensCons(a: Arg, s: string)
    requires Clean(a)
    ensures Tokens(a + [NEWLINE] + s) == [a] + Tokens(s)
    ensures Tokens(a) == [a]
  {
    var rest := [NEWLINE] + s;
    assert a + [NEWLINE] + s == a + rest && rest[1..] == s && a + [] == a;
    LineIs(a, rest);
    LineIs(a, []);
    TokensAfterNewline(rest);
    assert Tokens([]) == [];
  }

  /** Joined text without its last newline. */
  lemma JoinedCut(args: seq<Arg>)
    requires args != []
    ensures |Joined(args)| > 0
    ensures Joined(args)[..|Joined(args)| - 1] ==
            if |args| == 1 then args[0] else args[0] + [NEWLINE] + Joined(args[1..])[..|Joined(args[1..])| - 1]
  {
    var t := Joined(args[1..]);
    assert Joined(args) == args[0] + [NEWLINE] + t;
    if |args| == 1 { assert t == []; } else { assert t == args[1..][0] + [NEWLINE] + Joined(args[1..][1..]); }
  }

  /** The last newline is not needed. */
  lemma {:induction false} TokensJoinedCut(args: seq<Arg>)
    requires AllClean(args) && args != []
    ensures |Joined(args)| > 0 && Tokens(Joined(args)[..|Joined(args)| - 1]) == args
  {
    hide Tokens, Joined, Clean;
    JoinedCut(args);
    if |args| == 1 {
      TokensCons(args[0], []);
    } else {
      TokensJoinedCut(args[1..]);
      TokensCons(args[0], Joined(args[1..])[..|Joined(args[1..])| - 1]);
      assert args == [args[0]] + args[1..];
    }
  }

  // ---------------------------------------------------------------- reading and writing the field

  /** The arguments get_args takes from the field, if it starts with the title (recovery.c:188-200). */
  function Decode(field: string): (r: Option<seq<Arg>>)
    requires |field| == FIELD
  {
    var t := Tokens(CString(field[FIELD - 1 := NUL]));
    if t == [] || t[0] != TITLE then None
    else Some(if |t| <= MAX_ARGS then t[1..] else t[1..MAX_ARGS])
  }

  /** The text get_args writes for the arguments (recovery.c:224-229). */
  function Text(args: seq<Arg>): (s: string)
  {
    Joined([TITLE] + args)
  }

  /** The text, line by line. */
  lemma TextMeans(args: seq<Arg>, a: Arg)
    ensures Text([]) == "recovery\n" && Text(args + [a]) == Text(args) + a + "\n"
  {
    assert [TITLE] + [] == [TITLE] && Joined([TITLE]) == TITLE + [NEWLINE] + Joined([TITLE][1..]);
    var all, n := [TITLE] + (args + [a]), |args| + 1;
    assert all[..n + 1] == all && all[..n] == [TITLE] + args;
    JoinedSnoc(all, n);
  }

  /** What reading gives of a field into which the text of args was written. */
  function Reread(args: seq<Arg>): (r: Option<seq<Arg>>)
  {
    var t := Tokens(Cut(Text(args), FIELD - 1));
    if t == [] || t[0] != TITLE then None
    else Some(if |t| <= MAX_ARGS then t[1..] else t[1..MAX_ARGS])
  }

  /** The arguments fit the field: no empty or broken line, room for all but the last newline, and not too many. */
  predicate Fits(args: seq<Arg>)
  {
    AllClean(args) && |Text(args)| <= FIELD && |args| < MAX_ARGS
  }

  lemma TitleClean()
    ensures Clean(TITLE)
  {
  }

  lemma {:induction false} NoNul(args: seq<Arg>)
    requires forall i :: 0 <= i < |args| ==> NUL !in args[i]
    ensures NUL !in Joined(args)
  {
    if args != [] { NoNul(args[1..]); }
  }

  /** The same arguments come back exactly when they fit the field. */
  lemma RereadExact(args: seq<Arg>)
    requires forall i :: 0 <= i < |args| ==> NUL !in args[i]
    ensures Reread(args) == Some(args) <==> Fits(args)
  {
    var all, s := [TITLE] + args, Cut(Text(args), FIELD - 1);
    TitleClean();
    NoNul(all);
    if Fits(args) {
      TokensJoined(all);
      TokensJoinedCut(all);
      assert Tokens(s) == all;
    } else if Reread(args) == Some(args) {
      TokensClean(s);
      var t := Tokens(s);
      if |t| <= MAX_ARGS {
        assert t == [t[0]] + t[1..] == all;
      }
      Shorter(t, args);
    }
  }

  /** A list read back is clean, short enough and small enough, so that a second trip changes nothing. */
  lemma Shorter(t: seq<Arg>, args: seq<Arg>)
    requires AllClean(t) && t != [] && t[0] == TITLE && |Joined(t)| <= FIELD
    requires args == if |t| <= MAX_ARGS then t[1..] else t[1..MAX_ARGS]
    ensures Fits(args)
  {
    var all := [TITLE] + args;
    assert all == t[..|all|];
    JoinedPrefix(t, |all|);
  }

  lemma {:induction false} JoinedPrefix(t: seq<Arg>, n: nat)
    requires n <= |t|
    ensures |Joined(t[..n])| <= |Joined(t)|
  {
    if n > 0 {
      JoinedPrefix(t[1..], n - 1);
      assert t[..n][1..] == t[1..][..n - 1];
    }
  }

  /** Whatever a boot message holds, the arguments read from it survive being written back. */
  lemma DecodedFits(field: string)
    requires |field| == FIELD
    ensures Decode(field).Some? ==> Fits(Decode(field).value) && Reread(Decode(field).value) == Decode(field)
  {
    if Decode(field).Some? {
      var s := CString(field[FIELD - 1 := NUL]);
      assert |s| < FIELD by { EndsIn(field[FIELD - 1 := NUL], FIELD - 1); }
      TokensClean(s);
      var args := Decode(field).value;
      Shorter(Tokens(s), args);
      RereadExact(args);
    }
  }

  /** The loop that writes the arguments back (recovery.c:224-229). */
  method StoreArgs(field: string, args: seq<Arg>) returns (r: string)
    requires |field| == FIELD && forall i :: 0 <= i < |args| ==> NUL !in args[i]
    ensures |r| == FIELD && CString(r) == Cut(Text(args), FIELD - 1) && Decode(r) == Reread(args)
  {
    hide CString, Strlcpy, Strlcat, Tokens, Joined;
    var head := TITLE + [NEWLINE];
    StrlcpyReads(field, head);
    r := Strlcpy(field, head);
    JoinedTitle();
    ghost var all := [TITLE] + args;
    assert all[..1] == [TITLE];
    for i := 0 to |args|
      invariant |r| == FIELD && CString(r) == Cut(Joined(all[..i + 1]), FIELD - 1)
    {
      JoinedSnoc(all, i + 1);
      var before := CString(r);
      StrlcatReads(r, args[i]);
      r := Strlcat(r, args[i]);
      StrlcatReads(r, [NEWLINE]);
      r := Strlcat(r, [NEWLINE]);
      CutTwice(Joined(all[..i + 1]), args[i], FIELD - 1);
    }
    assert all[..|args| + 1] == all;
    Terminated(r);
  }

  lemma JoinedTitle()
    ensures Joined([TITLE]) == TITLE + [NEWLINE]
  {
  }

  lemma {:induction false} JoinedSnoc(all: seq<Arg>, i: nat)
    requires i < |all|
    ensures Joined(all[..i + 1]) == Joined(all[..i]) + all[i] + [NEWLINE]
  {
    if i > 0 {
      JoinedSnoc(all[1..], i - 1);
      assert all[..i + 1][1..] == all[1..][..i] && all[..i][1..] == all[1..][..i - 1];
      assert Joined(all[..i + 1]) == all[0] + [NEWLINE] + Joined(all[1..][..i]);
      assert Joined(all[..i]) == all[0] + [NEWLINE] + Joined(all[1..][..i - 1]);
    } else {
      assert all[..1] == [all[0]];
    }
  }

  /** Cutting after each piece is cutting once at the end. */
  lemma CutTwice(s: string, a: string, n: nat)
    ensures Cut(Cut(Cut(s, n) + a, n) + [NEWLINE], n) == Cut(s + a + [NEWLINE], n)
  {
  }

  /** Forcing the last byte to NUL changes nothing in a field that is terminated anyway. */
  lemma Terminated(r: string)
    requires |r| == FIELD && |CString(r)| < FIELD
    ensures CString(r[FIELD - 1 := NUL]) == CString(r)
  {
    CStringIs(r[FIELD - 1 := NUL], CString(r));
  }
}
