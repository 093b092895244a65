// Splitting a console line into arguments in place: the terminated arguments are packed into
// the front of the buffer that still holds the rest of the line.
module SplitArgv {
  import opened Bytes

  const QUOTE: byte := 34
  const ESCAPE: byte := 92
  const SPACE: byte := 32

  datatype Pointer = Null | At(offset: nat)

  datatype SplitState = InSpace | InArg | InQuoted | InArgEscaped | InQuotedEscaped

  // The C string at the front of a buffer: everything up to the first NUL.
  function CStr(s: seq<byte>): (t: seq<byte>)
    ensures |t| <= |s| && t == s[..|t|] && 0 !in t
    ensures |t| < |s| ==> s[|t|] == 0
    ensures 0 in s ==> |t| < |s|
  {
    if s == [] || s[0] == 0 then [] else [s[0]] + CStr(s[1..])
  }

  // ---------- what the line means ----------

  // What a backslash makes of the next character: nothing but \, " and space survive it.
  function Unescaped(c: byte): seq<byte> {
    if c == ESCAPE || c == QUOTE || c == SPACE then [c] else []
  }

  // An argument up to its end mark, and the line after it.  The end of the line also ends it.
  function Argument(s: seq<byte>, end: byte): (r: (seq<byte>, seq<byte>))
    ensures |r.1| <= |s| && (s != [] ==> |r.1| < |s|)
  {
    if s == [] then ([], [])
    else if s[0] == end then ([], s[1..])
    else if s[0] == ESCAPE then Escaped(s[1..], end)
    else (var r := Argument(s[1..], end); ([s[0]] + r.0, r.1))
  }

  function Escaped(s: seq<byte>, end: byte): (r: (seq<byte>, seq<byte>))
    ensures |r.1| <= |s|
  {
    if s == [] then ([], []) else (var r := Argument(s[1..], end); (Unescaped(s[0]) + r.0, r.1))
  }

  // The first `room` arguments of a line: blanks separate, a leading quote opens a quoted one.
  function Split(s: seq<byte>, room: nat): (args: seq<seq<byte>>)
    ensures |args| <= room
    decreases |s|
  {
    if s == [] || room == 0 then []
    else if s[0] == SPACE then Split(s[1..], room)
    else
      var r := if s[0] == QUOTE then Argument(s[1..], QUOTE) else Argument(s, SPACE);
      [r.0] + Split(r.1, room - 1)
  }

  // ---------- writing a line that means a given list ----------

  datatype Word = Quoted(arg: seq<byte>) | Bare(arg: seq<byte>)

  // A backslash before every character that a backslash may precede.
  function Escape(arg: seq<byte>): seq<byte> {
    if arg == [] then [] else (if Unescaped(arg[0]) != [] then [ESCAPE] else []) + [arg[0]] + Escape(arg[1..])
  }

  function Form(w: Word): seq<byte> {
    if w.Quoted? then [QUOTE] + Escape(w.arg) + [QUOTE] else Escape(w.arg)
  }

  // The words, each followed by a blank.
  function Line(words: seq<Word>): seq<byte> {
    if words == [] then [] else Form(words[0]) + [SPACE] + Line(words[1..])
  }

  function Args(words: seq<Word>): (args: seq<seq<byte>>)
    ensures |args| == |words|
  {
    if words == [] then [] else [words[0].arg] + Args(words[1..])
  }

  lemma ArgumentUnescapes(c: byte, tail: seq<byte>, end: byte)
    requires end != ESCAPE && Unescaped(c) == [c]
    ensures Argument([ESCAPE, c] + tail, end) == ([c] + Argument(tail, end).0, Argument(tail, end).1)
  {
    var s := [ESCAPE, c] + tail;
    assert s[1..] == [c] + tail && ([c] + tail)[1..] == tail;
  }

  // A backslash keeps a backslash, a quote or a blank behind it from ending the argument; with
  // any other character it vanishes together with that character.
  lemma BackslashPair(c: byte, tail: seq<byte>, end: byte)
    requires end == QUOTE || end == SPACE
    ensures var r := Argument(tail, end);
      Argument([0x5C, c] + tail, end) == if c == 0x5C || c == 0x22 || c == 0x20 then ([c] + r.0, r.1) else r
    ensures Argument([0x5C], end) == ([], [])
  {
    var s: seq<byte> := [0x5C, c] + tail;
    assert s[1..] == [c] + tail && ([c] + tail)[1..] == tail;
    var r := Argument(tail, end);
    assert [] + r.0 == r.0 && (r.0, r.1) == r;
    var b: seq<byte> := [0x5C];
    assert b[1..] == [];
  }

  lemma ArgumentTakes(c: byte, tail: seq<byte>, end: byte)
    requires c != end && c != ESCAPE
    ensures Argument([c] + tail, end) == ([c] + Argument(tail, end).0, Argument(tail, end).1)
  {
    assert ([c] + tail)[1..] == tail;
  }

  lemma {:induction false} ArgumentOfEscape(arg: seq<byte>, end: byte, rest: seq<byte>)
    requires end == QUOTE || end == SPACE
    ensures Argument(Escape(arg) + [end] + rest, end) == (arg, rest)
  {
    if arg == [] {
      assert Escape(arg) + [end] + rest == [end] + rest;
    } else {
      hide Argument, Escaped;
      var c, tail := arg[0], Escape(arg[1..]) + [end] + rest;
      ArgumentOfEscape(arg[1..], end, rest);
      assert arg == [c] + arg[1..];
      if Unescaped(c) != [] {
        assert Escape(arg) + [end] + rest == [ESCAPE, c] + tail;
        ArgumentUnescapes(c, tail, end);
      } else {
        assert Escape(arg) + [end] + rest == [c] + tail;
        ArgumentTakes(c, tail, end);
      }
    }
  }

  lemma SplitAtSpace(s: seq<byte>, room: nat)
    ensures Split([SPACE] + s, room) == Split(s, room)
  {
    assert ([SPACE] + s)[1..] == s;
  }

  lemma SplitAtQuote(s: seq<byte>, room: nat)
    requires room > 0
    ensures Split([QUOTE] + s, room) == [Argument(s, QUOTE).0] + Split(Argument(s, QUOTE).1, room - 1)
  {
    assert ([QUOTE] + s)[1..] == s;
  }

  // A quoted argument ends at its quote: whatever follows, even without a blank, is the rest of
  // the line.
  lemma QuotedThenMore(arg: seq<byte>, rest: seq<byte>, room: nat)
    requires room > 0
    ensures Split([QUOTE] + Escape(arg) + [QUOTE] + rest, room) == [arg] + Split(rest, room - 1)
  {
    hide Argument, Escape;
    var s := [QUOTE] + Escape(arg) + [QUOTE] + rest;
    assert s[1..] == Escape(arg) + [QUOTE] + rest;
    ArgumentOfEscape(arg, QUOTE, rest);
  }

  lemma SplitAtArgument(s: seq<byte>, room: nat)
    requires room > 0 && s != [] && s[0] != SPACE && s[0] != QUOTE
    ensures Split(s, room) == [Argument(s, SPACE).0] + Split(Argument(s, SPACE).1, room - 1)
  {
  }

  lemma EscapeStart(arg: seq<byte>)
    requires arg != []
    ensures Escape(arg) != [] && Escape(arg)[0] != SPACE && Escape(arg)[0] != QUOTE
  {
  }

  // A word at the front of a line is its argument, and leaves the rest of the line.
  lemma WordSplits(w: Word, rest: seq<byte>, room: nat)
    requires room > 0 && (w.Bare? ==> w.arg != [])
    ensures Split(Form(w) + [SPACE] + rest, room) == [w.arg] + Split(rest, room - 1)
  {
    hide Argument, Split, Escape;
    if w.Quoted? {
      var tail := Escape(w.arg) + [QUOTE] + ([SPACE] + rest);
      ArgumentOfEscape(w.arg, QUOTE, [SPACE] + rest);
      assert Form(w) + [SPACE] + rest == [QUOTE] + tail;
      SplitAtQuote(tail, room);
      SplitAtSpace(rest, room - 1);
    } else {
      ArgumentOfEscape(w.arg, SPACE, rest);
      EscapeStart(w.arg);
      SplitAtArgument(Escape(w.arg) + [SPACE] + rest, room);
    }
  }

  // Round trip: the line written for a list of words splits into their arguments, cut off
  // after `room` of them; with room for all of them, into exactly the list.
  lemma {:induction false} SplitOfLine(words: seq<Word>, room: nat)
    requires forall i :: 0 <= i < |words| && words[i].Bare? ==> words[i].arg != []
    ensures Split(Line(words), room) == Args(words)[..if |words| < room then |words| else room]
    ensures |words| <= room ==> Split(Line(words), room) == Args(words)
  {
    hide Argument, Form;
    if words != [] && room > 0 {
      WordSplits(words[0], Line(words[1..]), room);
      SplitOfLine(words[1..], room - 1);
      hide Split;
    }
  }

  lemma {:induction false} LineHasNoNul(words: seq<Word>)
    requires forall i :: 0 <= i < |words| ==> 0 !in words[i].arg
    ensures 0 !in Line(words)
  {
    if words != [] {
      EscapeHasNoNul(words[0].arg);
      LineHasNoNul(words[1..]);
    }
  }

  lemma {:induction false} EscapeHasNoNul(arg: seq<byte>)
    requires 0 !in arg
    ensures 0 !in Escape(arg)
  {
    if arg != [] {
      EscapeHasNoNul(arg[1..]);
    }
  }

  // ---------- the packed arguments ----------

  // Arguments one after the other, each with its terminating NUL.
  function Packed(args: seq<seq<byte>>): seq<byte> {
    if args == [] then [] else args[0] + [0] + Packed(args[1..])
  }

  lemma {:induction false} PackedSnoc(args: seq<seq<byte>>, arg: seq<byte>)
    ensures Packed(args + [arg]) == Packed(args) + arg + [0]
  {
    if args == [] {
      assert args + [arg] == [arg];
    } else {
      assert (args + [arg])[1..] == args[1..] + [arg];
      PackedSnoc(args[1..], arg);
    }
  }

  // A buffer that starts with packed arguments holds each as a C string at its own offset.
  lemma {:induction false} PackedHolds(buf: seq<byte>, args: seq<seq<byte>>, k: nat)
    requires k < |args| && Packed(args) <= buf && forall i :: 0 <= i < |args| ==> 0 !in args[i]
    ensures |Packed(args[..k])| <= |buf| && CStr(buf[|Packed(args[..k])|..]) == args[k]
  {
    if k == 0 {
      assert args[..0] == [];
      CStrIs(buf, args[0]);
    } else {
      var n := |args[0]| + 1;
      assert args[..k][1..] == args[1..][..k - 1];
      PackedHolds(buf[n..], args[1..], k - 1);
      assert buf[n..][|Packed(args[1..][..k - 1])|..] == buf[|Packed(args[..k])|..];
    }
  }

  lemma {:induction false} CStrIs(buf: seq<byte>, s: seq<byte>)
    requires s + [0] <= buf && 0 !in s
    ensures CStr(buf) == s
  {
    if s != [] {
      assert buf[0] == s[0] && (s + [0])[1..] == s[1..] + [0];
      CStrIs(buf[1..], s[1..]);
    }
  }

  // Any list of fewer than argvSize NUL-free strings, written as a line into a buffer, is what
  // the split finds there.
  lemma WrittenLineSplitsBack(buf: seq<byte>, words: seq<Word>, argvSize: nat)
    requires Line(words) + [0] <= buf && |words| < argvSize
    requires forall i :: 0 <= i < |words| ==> 0 !in words[i].arg && (words[i].Bare? ==> words[i].arg != [])
    ensures Split(CStr(buf), argvSize - 1) == Args(words)
  {
    hide Split, Line;
    LineHasNoNul(words);
    CStrIs(buf, Line(words));
    SplitOfLine(words, argvSize - 1);
  }

  // ---------- the loop ----------

  // The arguments still to come from a state in the middle of the line: `cur` is the part of
  // the current argument already put out.
  function Continue(state: SplitState, cur: seq<byte>, s: seq<byte>, room: nat): seq<seq<byte>> {
    match state
    case InSpace => Split(s, room)
    case InArg => Finish(cur, Argument(s, SPACE), room)
    case InQuoted => Finish(cur, Argument(s, QUOTE), room)
    case InArgEscaped => Finish(cur, Escaped(s, SPACE), room)
    case InQuotedEscaped => Finish(cur, Escaped(s, QUOTE), room)
  }

  function Finish(cur: seq<byte>, r: (seq<byte>, seq<byte>), room: nat): seq<seq<byte>> {
    if room == 0 then [] else [cur + r.0] + Split(r.1, room - 1)
  }

  // What one character does: the next state, the characters put out for the argument, and
  // whether it ends the argument.
  function Next(state: SplitState, c: byte): (SplitState, seq<byte>, bool) {
    match state
    case InSpace =>
      if c == SPACE then (InSpace, [], false)
      else if c == QUOTE then (InQuoted, [], false)
      else if c == ESCAPE then (InArgEscaped, [], false)
      else (InArg, [c], false)
    case InQuoted =>
      if c == QUOTE then (InSpace, [], true) else if c == ESCAPE then (InQuotedEscaped, [], false)
        else (InQuoted, [c], false)
    case InArg =>
      if c == SPACE then (InSpace, [], true) else if c == ESCAPE then (InArgEscaped, [], false) else (InArg, [c], false)
    case InArgEscaped => (InArg, Unescaped(c), false)
    case InQuotedEscaped => (InQuoted, Unescaped(c), false)
  }

  // One character of the state machine is one unfolding of the meaning of the line.
  lemma StepContinues(state: SplitState, cur: seq<byte>, s: seq<byte>, room: nat)
    requires s != [] && room > 0 && (state.InSpace? ==> cur == [])
    ensures
      var (state', out, ends) := Next(state, s[0]);
      Continue(state, cur, s, room) ==
      if ends then [cur] + Continue(InSpace, [], s[1..], room - 1) else Continue(state', cur + out, s[1..], room)
  {
    var (state', out, ends) := Next(state, s[0]);
    assert cur + [] == cur;
    var end := if state'.InQuoted? || state'.InQuotedEscaped? then QUOTE else SPACE;
    var r := if state'.InArg? || state'.InQuoted? then Argument(s[1..], end) else Escaped(s[1..], end);
    assert cur + (out + r.0) == (cur + out) + r.0;
    assert [] + (out + r.0) == out + r.0 && [] + r.0 == r.0;
  }

  lemma EndContinues(state: SplitState, cur: seq<byte>, s: seq<byte>, room: nat)
    requires if room == 0 then state.InSpace? else s == []
    ensures Continue(state, cur, s, room) == if state.InSpace? then [] else [cur]
  {
    assert cur + [] == cur;
  }

  // The same, behind the arguments found so far and at a position of the line.
  lemma StepAdvances(done: seq<seq<byte>>, state: SplitState, cur: seq<byte>, text: seq<byte>, inp: nat, room: nat)
    requires inp < |text| && room > 0 && (state.InSpace? ==> cur == [])
    ensures
      var (state', out, ends) := Next(state, text[inp]);
      done + Continue(state, cur, text[inp..], room) ==
      if ends then (done + [cur]) + Continue(InSpace, [], text[inp + 1..], room - 1)
      else done + Continue(state', cur + out, text[inp + 1..], room)
  {
    hide Continue, Next;
    StepContinues(state, cur, text[inp..], room);
    assert text[inp..][0] == text[inp] && text[inp..][1..] == text[inp + 1..];
    var rest := Continue(InSpace, [], text[inp + 1..], room - 1);
    assert done + ([cur] + rest) == (done + [cur]) + rest;
  }

  // The buffer in mid-loop: packed arguments and the current one in front, the unread line behind.
  ghost predicate Memory(buf: seq<byte>, orig: seq<byte>, done: seq<seq<byte>>, cur: seq<byte>, out: nat, inp: nat) {
    && out <= inp <= |buf| == |orig|
    && buf[..out] == Packed(done) + cur
    && buf[inp..] == orig[inp..]
  }

  lemma UnreadAt(buf: seq<byte>, orig: seq<byte>, done: seq<seq<byte>>, cur: seq<byte>, out: nat, inp: nat)
    requires Memory(buf, orig, done, cur, out, inp) && inp < |buf|
    ensures out <= inp && out == |Packed(done) + cur| && buf[inp] == orig[inp]
  {
    assert buf[inp..][0] == orig[inp..][0];
  }

  // Output never overtakes input, so putting out a character leaves the unread line alone.
  lemma PutKeepsMemory(buf: seq<byte>, orig: seq<byte>, done: seq<seq<byte>>, cur: seq<byte>, out: nat, inp: nat,
      c: byte)
    requires Memory(buf, orig, done, cur, out, inp) && inp < |buf|
    ensures Memory(buf[out := c], orig, done, cur + [c], out + 1, inp + 1)
    ensures c == 0 ==> Memory(buf[out := c], orig, done + [cur], [], out + 1, inp + 1)
    ensures Memory(buf, orig, done, cur, out, inp + 1)
  {
    PackedSnoc(done, cur);
    assert buf[inp + 1..] == buf[inp..][1..] && orig[inp + 1..] == orig[inp..][1..];
    assert buf[out := c][inp + 1..] == buf[inp + 1..];
    assert buf[out := c][..out + 1] == Packed(done) + cur + [c];
    assert Packed(done + [cur]) + [] == Packed(done + [cur]);
  }

  // The argument table: each entry points at the offset of its packed argument.
  ghost predicate Table(av: seq<Pointer>, done: seq<seq<byte>>) {
    && |done| <= |av|
    && (forall k :: 0 <= k < |done| ==> av[k] == At(|Packed(done[..k])|))
    && forall k :: 0 <= k < |done| ==> 0 !in done[k]
  }

  lemma TableSnoc(av: seq<Pointer>, done: seq<seq<byte>>, cur: seq<byte>)
    requires Table(av, done) && |done| < |av| && 0 !in cur
    ensures Table(av[|done| := At(|Packed(done)|)], done + [cur])
  {
    var all := done + [cur];
    assert all[..|done|] == done;
    forall k | 0 <= k < |done|
      ensures all[..k] == done[..k]
    {
    }
  }

  // A finished table over a finished buffer hands out the arguments as C strings.
  lemma TableHolds(av: seq<Pointer>, buf: seq<byte>, args: seq<seq<byte>>)
    requires Table(av, args) && Packed(args) <= buf
    ensures forall k :: 0 <= k < |args| ==> av[k].At? && av[k].offset <= |buf| && CStr(buf[av[k].offset..]) == args[k]
  {
    forall k | 0 <= k < |args|
      ensures av[k].At? && av[k].offset <= |buf| && CStr(buf[av[k].offset..]) == args[k]
    {
      PackedHolds(buf, args, k);
    }
  }

  // The variables of the loop besides the input position.
  datatype Cursor = Cursor(state: SplitState, argc: nat, start: nat, out: nat)

  // What one input character does to them, to the buffer and to the argument table.
  ghost predicate Stepped(buf: seq<byte>, av: seq<Pointer>, charIn: byte, c: Cursor, buf': seq<byte>, av': seq<Pointer>,
      c': Cursor)
    requires c.out < |buf| && c.argc < |av|
  {
    var (next, put, ends) := Next(c.state, charIn);
    && (put == [] || put == [charIn])
    && c' == Cursor(next, if ends then c.argc + 1 else c.argc,
                    if c.state.InSpace? && !next.InSpace? then c.out else c.start,
                    if ends then c.out + 1 else c.out + |put|)
    && av' == (if ends then av[c.argc := At(c.start)] else av)
    && buf' == (if ends then buf[c.out := 0] else if put == [] then buf else buf[c.out := charIn])
  }

  // The body of the loop: one input character, at most one output character and one finished
  // argument.
  method SplitCharacter(line: array<byte>, argv: array<Pointer>, charIn: byte,
      state: SplitState, argc: nat, nextArgStart: nat, outPtr: nat)
    returns (state': SplitState, argc': nat, nextArgStart': nat, outPtr': nat)
    requires outPtr < line.Length && argc < argv.Length
    modifies line, argv
    ensures Stepped(old(line[..]), old(argv[..]), charIn, Cursor(state, argc, nextArgStart, outPtr),
      line[..], argv[..], Cursor(state', argc', nextArgStart', outPtr'))
  {
    state', argc', nextArgStart', outPtr' := state, argc, nextArgStart, outPtr;
    var charOut: int := -1;
    match state {
      case InSpace =>
        if charIn == SPACE {
        } else if charIn == QUOTE {
          nextArgStart' := outPtr;
          state' := InQuoted;
        } else if charIn == ESCAPE {
          nextArgStart' := outPtr;
          state' := InArgEscaped;
        } else {
          nextArgStart' := outPtr;
          state' := InArg;
          charOut := charIn;
        }
      case InQuoted =>
        if charIn == QUOTE {
          charOut := 0;
          argv[argc] := At(nextArgStart);
          argc' := argc + 1;
          state' := InSpace;
        } else if charIn == ESCAPE {
          state' := InQuotedEscaped;
        } else {
          charOut := charIn;
        }
      case InArgEscaped =>
        if charIn == ESCAPE || charIn == QUOTE || charIn == SPACE {
          charOut := charIn;
        }
        state' := InArg;
      case InQuotedEscaped =>
        if charIn == ESCAPE || charIn == QUOTE || charIn == SPACE {
          charOut := charIn;
        }
        state' := InQuoted;
      case InArg =>
        if charIn == SPACE {
          charOut := 0;
          argv[argc] := At(nextArgStart);
          argc' := argc + 1;
          state' := InSpace;
        } else if charIn == ESCAPE {
          state' := InArgEscaped;
        } else {
          charOut := charIn;
        }
    }
    if charOut >= 0 {
      line[outPtr] := charOut;
      outPtr' := outPtr + 1;
    }
  }

  // The loop: at most `room` arguments are put out, and the line is read up to its NUL or up
  // to the end of the last argument there is room for.
  ghost predicate LoopInv(buf: seq<byte>, av: seq<Pointer>, orig: seq<byte>, table: seq<Pointer>, room: nat,
      c: Cursor, inp: nat, done: seq<seq<byte>>, cur: seq<byte>) {
    var text := CStr(orig);
    && inp <= |text| < |orig| == |buf|
    && Memory(buf, orig, done, cur, c.out, inp)
    && c.argc == |done| <= room < |av| == |table| && (c.argc == room ==> c.state.InSpace?)
    && (if c.state.InSpace? then cur == [] else c.start == |Packed(done)|)
    && 0 !in cur && Table(av, done) && av[c.argc..] == table[c.argc..]
    && Split(text, room) == done + Continue(c.state, cur, text[inp..], room - c.argc)
  }

  lemma LoopInvBounds(buf: seq<byte>, av: seq<Pointer>, orig: seq<byte>, table: seq<Pointer>, room: nat,
      c: Cursor, inp: nat, done: seq<seq<byte>>, cur: seq<byte>)
    requires LoopInv(buf, av, orig, table, room, c, inp, done, cur) && c.argc < room
    ensures inp < |buf| && c.out < |buf| && c.argc < |av|
    ensures buf[inp] == 0 ==> inp == |CStr(orig)|
  {
    hide Split, Continue, Packed, CStr, Table, Memory;
    UnreadAt(buf, orig, done, cur, c.out, inp);
  }

  lemma StepKeepsLoopInv(buf: seq<byte>, av: seq<Pointer>, orig: seq<byte>, table: seq<Pointer>, room: nat,
      c: Cursor, inp: nat, done: seq<seq<byte>>, cur: seq<byte>, buf': seq<byte>, av': seq<Pointer>, c': Cursor)
    returns (done': seq<seq<byte>>, cur': seq<byte>)
    requires LoopInv(buf, av, orig, table, room, c, inp, done, cur) && c.argc < room
    requires inp < |buf| && c.out < |buf| && c.argc < |av| && buf[inp] != 0
    requires Stepped(buf, av, buf[inp], c, buf', av', c')
    ensures LoopInv(buf', av', orig, table, room, c', inp + 1, done', cur')
  {
    hide Split, Continue, Packed, CStr, Table, Memory;
    var text := CStr(orig);
    UnreadAt(buf, orig, done, cur, c.out, inp);
    StepAdvances(done, c.state, cur, text, inp, room - c.argc);
    var (next, put, ends) := Next(c.state, buf[inp]);
    PutKeepsMemory(buf, orig, done, cur, c.out, inp, if ends then 0 else buf[inp]);
    if ends {
      TableSnoc(av, done, cur);
      assert av'[c.argc + 1..] == av[c.argc..][1..] && table[c.argc + 1..] == table[c.argc..][1..];
      done', cur' := done + [cur], [];
    } else {
      assert put == [] ==> cur + put == cur;
      done', cur' := done, cur + put;
    }
  }

  lemma LoopInvAtStart(buf: seq<byte>, av: seq<Pointer>, room: nat)
    requires 0 in buf && room < |av|
    ensures LoopInv(buf, av, buf, av, room, Cursor(InSpace, 0, 0, 0), 0, [], [])
  {
    hide Split;
  }

  // After the loop and its final NUL, the table hands out the split of the line as C strings.
  lemma FinishHolds(buf: seq<byte>, av: seq<Pointer>, orig: seq<byte>, table: seq<Pointer>, room: nat,
      c: Cursor, inp: nat, done: seq<seq<byte>>, cur: seq<byte>)
    requires LoopInv(buf, av, orig, table, room, c, inp, done, cur)
    requires c.argc < room ==> inp == |CStr(orig)|
    ensures c.out < |buf| && c.argc < |av| && forall j :: |CStr(orig)| < j < |buf| ==> buf[c.out := 0][j] == orig[j]
    ensures
      var (args, end) := (Split(CStr(orig), room), if c.state.InSpace? then c.argc else c.argc + 1);
      && (c.state.InSpace? || c.argc < room)
      && |args| == end < |av|
      && var av' := (if c.state.InSpace? then av else av[c.argc := At(c.start)])[end := Null];
      && av'[end + 1..] == table[end + 1..]
      && forall k :: 0 <= k < end ==>
        av'[k].At? && av'[k].offset <= |buf| && CStr(buf[c.out := 0][av'[k].offset..]) == args[k]
  {
    hide Split, Continue, Packed, CStr;
    var (args, end) := (Split(CStr(orig), room), if c.state.InSpace? then c.argc else c.argc + 1);
    var buf', av' := buf[c.out := 0], (if c.state.InSpace? then av else av[c.argc := At(c.start)])[end := Null];
    EndContinues(c.state, cur, CStr(orig)[inp..], room - c.argc);
    UnreadAt(buf, orig, done, cur, c.out, inp);
    PutKeepsMemory(buf, orig, done, cur, c.out, inp, 0);
    assert av'[end + 1..] == av[c.argc..][end + 1 - c.argc..]
      && table[end + 1..] == table[c.argc..][end + 1 - c.argc..];
    if c.state.InSpace? {
      assert args == done && Packed(args) <= buf';
    } else {
      TableSnoc(av, done, cur);
      assert args == done + [cur] && Packed(args) <= buf';
    }
    assert Table(av', args);
    TableHolds(av', buf', args);
    forall j | |CStr(orig)| < j < |buf|
      ensures buf'[j] == orig[j]
    {
      assert buf'[j] == buf[inp..][j - inp] == orig[inp..][j - inp];
    }
  }

  // The loop of the function.
  method ScanLine(line: array<byte>, argv: array<Pointer>, argvSize: nat)
    returns (state: SplitState, argc: nat, nextArgStart: nat, outPtr: nat,
             ghost inp: nat, ghost done: seq<seq<byte>>, ghost cur: seq<byte>)
    requires 0 in line[..] && 1 <= argvSize <= argv.Length
    modifies line, argv
    ensures LoopInv(line[..], argv[..], old(line[..]), old(argv[..]), argvSize - 1,
      Cursor(state, argc, nextArgStart, outPtr), inp, done, cur)
    ensures argc < argvSize - 1 ==> inp == |CStr(old(line[..]))|
  {
    hide Split, CStr, LoopInv, Stepped;
    ghost var orig, table := line[..], argv[..];
    done, cur := [], [];
    state := InSpace;
    argc := 0;
    nextArgStart, outPtr, inp := 0, 0, 0;
    var inPtr: nat := 0;
    LoopInvAtStart(line[..], argv[..], argvSize - 1);
    while argc < argvSize - 1
      invariant LoopInv(line[..], argv[..], orig, table, argvSize - 1, Cursor(state, argc, nextArgStart, outPtr), inPtr,
        done, cur)
      invariant inp == inPtr
      decreases line.Length - inPtr
    {
      ghost var buf, av, c := line[..], argv[..], Cursor(state, argc, nextArgStart, outPtr);
      LoopInvBounds(buf, av, orig, table, argvSize - 1, c, inPtr, done, cur);
      var charIn := line[inPtr];
      if charIn == 0 {
        return;
      }
      state, argc, nextArgStart, outPtr := SplitCharacter(line, argv, charIn, state, argc, nextArgStart, outPtr);
      done, cur := StepKeepsLoopInv(buf, av, orig, table, argvSize - 1, c, inPtr, done, cur,
        line[..], argv[..], Cursor(state, argc, nextArgStart, outPtr));
      inPtr := inPtr + 1;
      inp := inPtr;
    }
  }

  // The C function: in place, yet equal to the pure split of the line as it was on entry.
  method EspConsoleSplitArgv(line: array<byte>, argv: array<Pointer>, argvSize: nat) returns (argc: nat)
    requires 0 in line[..] && 1 <= argvSize <= argv.Length
    modifies line, argv
    ensures
      var args := Split(old(CStr(line[..])), argvSize - 1);
      && argc == |args|
      && argv[argc] == Null
      && forall k :: 0 <= k < argc ==>
        argv[k].At? && argv[k].offset <= line.Length && CStr(line[argv[k].offset..]) == args[k]
    ensures argv[argc + 1..] == old(argv[argc + 1..])
    ensures forall j :: |old(CStr(line[..]))| < j < line.Length ==> line[j] == old(line[j])
  {
    hide Split, CStr, LoopInv;
    ghost var orig, table := line[..], argv[..];
    ghost var inp, done, cur;
    var state, nextArgStart, outPtr;
    state, argc, nextArgStart, outPtr, inp, done, cur := ScanLine(line, argv, argvSize);
    ghost var buf, av := line[..], argv[..];
    FinishHolds(buf, av, orig, table, argvSize - 1, Cursor(state, argc, nextArgStart, outPtr), inp, done, cur);
    line[outPtr] := 0;
    assert line[..] == buf[outPtr := 0];
    if state != InSpace && argc < argvSize - 1 {
      argv[argc] := At(nextArgStart);
      argc := argc + 1;
    }
    argv[argc] := Null;
    assert argv[..] == (if state.InSpace? then av else av[argc - 1 := At(nextArgStart)])[argc := Null];
  }
}
