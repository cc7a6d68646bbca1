/** The line and space tokenizer of `xargs`.

    `xargs` reads its standard input one byte at a time.  A space ends an
    argument; a newline ends an argument and runs the command once with
    the fixed arguments `argv[1..]` followed by the arguments of that
    line.  Here the input is a string and the result is the list of
    argument vectors handed to `run`, each ending in a null pointer.
 */
module Xargs {

  /** One entry of an argument vector: a C string or the terminating null. */
  datatype Arg = Str(s: string) | Null

  /** Capacity of the input buffer `buf`. */
  const BufSize: nat := 2048
  /** Capacity of the argument-pointer array `argsbuf`. */
  const MaxArgs: nat := 128

  // ---------------------------------------------------------------------
  // The tokenizing loop as written
  // ---------------------------------------------------------------------

  /** The C string that starts at some byte of the buffer: it ends at the
      first NUL, which is the delimiter the loop wrote unless the input
      itself held a NUL byte earlier. */
  function CStr(s: string): (r: string)
    ensures |r| <= |s| && r == s[..|r|] && '\0' !in r
    ensures |r| < |s| ==> s[|r|] == '\0'
  {
    if s == [] || s[0] == '\0' then [] else [s[0]] + CStr(s[1..])
  }

  /** The vector passed to `run`: the pointers in `argsbuf` and a null. */
  function Vector(args: seq<string>): (v: seq<Arg>)
    ensures |v| == |args| + 1 && v[|args|] == Null
    ensures forall i :: 0 <= i < |args| ==> v[i] == Str(args[i])
  {
    if args == [] then [Null] else [Str(args[0])] + Vector(args[1..])
  }

  /** The arguments `xargs` itself was given after its own name. */
  function Fixed(argv: seq<string>): seq<string>
  {
    if |argv| == 0 then [] else argv[1..]
  }

  /** The loop of `main` on the bytes `rest` still to read.  `cur` holds
      the bytes read since `last_p`, `line` the arguments saved for the
      current line and `runs` the vectors already handed to `run`. */
  function Loop(fixed: seq<string>, cur: string, rest: string, line: seq<string>, runs: seq<seq<Arg>>): seq<seq<Arg>>
    decreases |rest|
  {
    if rest == [] then
      // end of input: the last line runs only if it saved an argument
      if |line| > 0 then runs + [Vector(fixed + line + [CStr(cur)])] else runs
    else if rest[0] == ' ' then
      Loop(fixed, [], rest[1..], line + [CStr(cur)], runs)
    else if rest[0] == '\n' then
      Loop(fixed, [], rest[1..], [], runs + [Vector(fixed + line + [CStr(cur)])])
    else
      Loop(fixed, cur + [rest[0]], rest[1..], line, runs)
  }

  // ---------------------------------------------------------------------
  // An independent description: lines and fields
  // ---------------------------------------------------------------------

  /** The pieces of `s` between occurrences of `d`; there is always one
      more piece than there are occurrences. */
  function Split(s: string, d: char): (parts: seq<string>)
    ensures |parts| >= 1
    decreases |s|
  {
    if s == [] then [[]]
    else
      var tail := Split(s[1..], d);
      if s[0] == d then [[]] + tail else [[s[0]] + tail[0]] + tail[1..]
  }

  /** The pieces glued back together with `d` between them. */
  function Join(parts: seq<string>, d: char): string
    requires |parts| >= 1
    decreases |parts|
  {
    if |parts| == 1 then parts[0] else parts[0] + [d] + Join(parts[1..], d)
  }

  /** The argument strings the pointers to `fields` denote. */
  function CStrs(fields: seq<string>): (r: seq<string>)
    ensures |r| == |fields| && forall i :: 0 <= i < |fields| ==> r[i] == CStr(fields[i])
  {
    seq(|fields|, i requires 0 <= i < |fields| => CStr(fields[i]))
  }

  /** The vectors described line by line: every line that a newline ends
      runs once with its space-separated fields, and the unfinished last
      line runs only if it holds a space. */
  function RunsOfLines(fixed: seq<string>, lines: seq<string>): seq<seq<Arg>>
    requires |lines| >= 1
    decreases |lines|
  {
    var args := CStrs(Split(lines[0], ' '));
    if |lines| == 1 then
      (if ' ' in lines[0] then [Vector(fixed + args)] else [])
    else [Vector(fixed + args)] + RunsOfLines(fixed, lines[1..])
  }

  /** What `xargs` with arguments `argv` hands to `run` on input `input`. */
  function Runs(argv: seq<string>, input: string): seq<seq<Arg>>
  {
    RunsOfLines(Fixed(argv), Split(input, '\n'))
  }

  /** The capacities that `main` never checks: every byte read, and the
      NUL written after a final unfinished line, fit in `buf`, and every
      line's pointers plus the terminating null fit in `argsbuf`. */
  predicate WithinCapacity(argv: seq<string>, input: string)
  {
    var lines := Split(input, '\n');
    var last := lines[|lines| - 1];
    && |Fixed(argv)| <= MaxArgs
    && |input| <= BufSize
    && (' ' in last ==> |input| < BufSize && |Fixed(argv)| + |Split(last, ' ')| + 1 <= MaxArgs)
    && (forall i :: 0 <= i < |lines| - 1 ==> |Fixed(argv)| + |Split(lines[i], ' ')| + 1 <= MaxArgs)
  }

  // ---------------------------------------------------------------------
  // Splitting
  // ---------------------------------------------------------------------

  /** Splitting undoes joining: the pieces, glued with `d`, give back `s`,
      and no piece contains `d`. */
  lemma {:induction false} SplitJoin(s: string, d: char)
    ensures Join(Split(s, d), d) == s
    ensures forall i :: 0 <= i < |Split(s, d)| ==> d !in Split(s, d)[i]
    decreases |s|
  {
    if s != [] {
      SplitJoin(s[1..], d);
      var tail := Split(s[1..], d);
      if s[0] == d {
        assert Split(s, d)[1..] == tail;
      } else {
        var parts := Split(s, d);
        assert parts[1..] == tail[1..];
        if |tail| == 1 {
          assert Join(parts, d) == [s[0]] + tail[0];
        } else {
          assert Join(parts, d) == [s[0]] + tail[0] + [d] + Join(tail[1..], d);
        }
        forall i | 0 <= i < |parts|
          ensures d !in parts[i]
        {
          if i == 0 {
            assert parts[0] == [s[0]] + tail[0];
          } else {
            assert parts[i] == tail[i];
          }
        }
      }
    }
  }

  /** A string without the delimiter is a single piece. */
  lemma {:induction false} SplitNone(s: string, d: char)
    requires d !in s
    ensures Split(s, d) == [s]
    decreases |s|
  {
    if s != [] {
      SplitNone(s[1..], d);
      assert [s[0]] + s[1..] == s;
    }
  }

  /** A piece followed by the delimiter comes off the front of the split. */
  lemma {:induction false} SplitAfter(a: string, b: string, d: char)
    requires d !in a
    ensures Split(a + [d] + b, d) == [a] + Split(b, d)
    decreases |a|
  {
    if a == [] {
      assert [] + [d] + b == [d] + b;
      assert ([d] + b)[1..] == b;
    } else {
      assert (a + [d] + b)[1..] == a[1..] + [d] + b;
      SplitAfter(a[1..], b, d);
      assert [a[0]] + a[1..] == a;
    }
  }

  /** Splitting a string whose first character is not the delimiter. */
  lemma SplitCons(ch: char, s: string, d: char)
    requires ch != d
    ensures Split([ch] + s, d) == [[ch] + Split(s, d)[0]] + Split(s, d)[1..]
  {
    assert ([ch] + s)[1..] == s;
  }

  // ---------------------------------------------------------------------
  // The loop agrees with the description
  // ---------------------------------------------------------------------

  /** The current line, with arguments `args`, followed by the lines
      `more`: it runs unless it is the unfinished last line and `runs`
      is false. */
  function Finish(fixed: seq<string>, args: seq<string>, runs: bool, more: seq<string>): seq<seq<Arg>>
  {
    if more == [] then (if runs then [Vector(fixed + args)] else [])
    else [Vector(fixed + args)] + RunsOfLines(fixed, more)
  }

  /** A list of lines is its first line followed by the others. */
  lemma RunsOfLinesFinish(fixed: seq<string>, lines: seq<string>)
    requires |lines| >= 1
    ensures RunsOfLines(fixed, lines) ==
      Finish(fixed, CStrs(Split(lines[0], ' ')), ' ' in lines[0], lines[1..])
  {
  }

  /** What the loop still hands to `run` from a point inside a line:
      the current line continues with `cur` and the first line of `rest`. */
  function Pending(fixed: seq<string>, cur: string, rest: string, line: seq<string>): seq<seq<Arg>>
  {
    var lines := Split(rest, '\n');
    Finish(fixed, line + CStrs(Split(cur + lines[0], ' ')), |line| > 0 || ' ' in lines[0], lines[1..])
  }

  /** The first line of `rest`, which starts with a space, splits into
      the argument `cur` ends and the fields of the rest of the line. */
  lemma SpaceFields(cur: string, rest: string)
    requires ' ' !in cur && |rest| > 0 && rest[0] == ' '
    ensures Split(rest, '\n')[0] == [' '] + Split(rest[1..], '\n')[0]
    ensures Split(rest, '\n')[1..] == Split(rest[1..], '\n')[1..]
    ensures CStrs(Split(cur + Split(rest, '\n')[0], ' ')) ==
      [CStr(cur)] + CStrs(Split(Split(rest[1..], '\n')[0], ' '))
  {
    var lines := Split(rest, '\n');
    var tail := Split(rest[1..], '\n');
    assert rest == [' '] + rest[1..];
    SplitCons(' ', rest[1..], '\n');
    SplitAfter(cur, tail[0], ' ');
    assert cur + lines[0] == cur + [' '] + tail[0];
    var f := Split(tail[0], ' ');
    assert CStrs([cur] + f) == [CStr(cur)] + CStrs(f);
  }

  /** Reading a space moves the current argument into the line. */
  lemma PendingSpace(fixed: seq<string>, cur: string, rest: string, line: seq<string>)
    requires ' ' !in cur && |rest| > 0 && rest[0] == ' '
    ensures Pending(fixed, cur, rest, line) == Pending(fixed, [], rest[1..], line + [CStr(cur)])
  {
    var lines := Split(rest, '\n');
    var tail := Split(rest[1..], '\n');
    var f := CStrs(Split(tail[0], ' '));
    var args := (line + [CStr(cur)]) + f;
    assert Pending(fixed, cur, rest, line) == Finish(fixed, args, true, tail[1..]) by {
      SpaceFields(cur, rest);
      assert ' ' in lines[0] by { assert lines[0][0] == ' '; }
      assert line + ([CStr(cur)] + f) == args;
    }
    assert Pending(fixed, [], rest[1..], line + [CStr(cur)]) == Finish(fixed, args, true, tail[1..]) by {
      assert [] + tail[0] == tail[0];
    }
  }

  /** A line that `rest` ends at once holds only the argument `cur`. */
  lemma NewlineFields(cur: string, rest: string)
    requires ' ' !in cur && |rest| > 0 && rest[0] == '\n'
    ensures Split(rest, '\n') == [[]] + Split(rest[1..], '\n')
    ensures CStrs(Split(cur + Split(rest, '\n')[0], ' ')) == [CStr(cur)]
  {
    assert rest == ['\n'] + rest[1..];
    SplitNone(cur, ' ');
    assert cur + [] == cur;
    assert CStrs([cur]) == [CStr(cur)];
  }

  /** Reading a newline runs the line and starts an empty one. */
  lemma PendingNewline(fixed: seq<string>, cur: string, rest: string, line: seq<string>)
    requires ' ' !in cur && |rest| > 0 && rest[0] == '\n'
    ensures Pending(fixed, cur, rest, line) ==
      [Vector(fixed + line + [CStr(cur)])] + Pending(fixed, [], rest[1..], [])
  {
    var lines := Split(rest, '\n');
    var tail := Split(rest[1..], '\n');
    NewlineFields(cur, rest);
    assert lines[1..] == tail;
    assert [] + tail[0] == tail[0];
    assert [] + CStrs(Split(tail[0], ' ')) == CStrs(Split(tail[0], ' '));
    RunsOfLinesFinish(fixed, tail);
    assert fixed + line + [CStr(cur)] == fixed + (line + [CStr(cur)]);
  }

  /** Reading any other byte extends the current argument. */
  lemma PendingOther(fixed: seq<string>, cur: string, rest: string, line: seq<string>)
    requires |rest| > 0 && rest[0] != ' ' && rest[0] != '\n'
    ensures Pending(fixed, cur, rest, line) == Pending(fixed, cur + [rest[0]], rest[1..], line)
  {
    var ch := rest[0];
    var lines := Split(rest, '\n');
    var tail := Split(rest[1..], '\n');
    assert rest == [ch] + rest[1..];
    SplitCons(ch, rest[1..], '\n');
    assert lines[0] == [ch] + tail[0] && lines[1..] == tail[1..];
    assert cur + lines[0] == (cur + [ch]) + tail[0];
    assert ' ' in lines[0] <==> ' ' in tail[0] by {
      assert lines[0][1..] == tail[0];
    }
  }

  /** The loop hands to `run` exactly what the line-by-line description
      says is still pending. */
  lemma {:induction false} LoopPending(fixed: seq<string>, cur: string, rest: string, line: seq<string>, runs: seq<seq<Arg>>)
    requires ' ' !in cur && '\n' !in cur
    ensures Loop(fixed, cur, rest, line, runs) == runs + Pending(fixed, cur, rest, line)
    decreases |rest|
  {
    if rest == [] {
      SplitNone(cur, ' ');
      assert cur + [] == cur;
      assert CStrs([cur]) == [CStr(cur)];
      var lines := Split(rest, '\n');
      assert lines == [[]] && lines[1..] == [];
      assert ' ' !in lines[0];
      assert fixed + line + [CStr(cur)] == fixed + (line + CStrs(Split(cur + lines[0], ' ')));
      assert runs + [] == runs;
    } else if rest[0] == ' ' {
      LoopPending(fixed, [], rest[1..], line + [CStr(cur)], runs);
      PendingSpace(fixed, cur, rest, line);
    } else if rest[0] == '\n' {
      LoopPending(fixed, [], rest[1..], [], runs + [Vector(fixed + line + [CStr(cur)])]);
      PendingNewline(fixed, cur, rest, line);
    } else {
      LoopPending(fixed, cur + [rest[0]], rest[1..], line, runs);
      PendingOther(fixed, cur, rest, line);
    }
  }

  /** `xargs argv < input`: the argument vectors handed to `run`, in order.
      They are exactly the line-by-line description `Runs`. */
  function Xargs(argv: seq<string>, input: string): (runs: seq<seq<Arg>>)
    requires WithinCapacity(argv, input)
    ensures runs == Runs(argv, input)
  {
    LoopPending(Fixed(argv), [], input, [], []);
    ghost var lines := Split(input, '\n');
    assert [] + lines[0] == lines[0];
    assert [] + CStrs(Split(lines[0], ' ')) == CStrs(Split(lines[0], ' '));
    Loop(Fixed(argv), [], input, [], [])
  }

  // ---------------------------------------------------------------------
  // Consequences
  // ---------------------------------------------------------------------

  /** A vector as `run` receives it: the fixed arguments first, then
      NUL-free argument strings, and a null at the end and nowhere else. */
  predicate RunShape(fixed: seq<string>, r: seq<Arg>)
  {
    && |r| > |fixed| && r[|r| - 1] == Null
    && (forall i :: 0 <= i < |fixed| ==> r[i] == Str(fixed[i]))
    && (forall i :: 0 <= i < |r| - 1 ==> r[i].Str?)
  }

  lemma VectorShape(fixed: seq<string>, args: seq<string>)
    ensures RunShape(fixed, Vector(fixed + args))
  {
    var v := Vector(fixed + args);
    forall i | 0 <= i < |fixed|
      ensures v[i] == Str(fixed[i])
    {
      assert (fixed + args)[i] == fixed[i];
    }
  }

  /** Every vector starts with the fixed arguments, ends in the only null,
      and its other entries are argument strings.  There is one vector
      per newline, plus one when the unfinished last line holds a space. */
  lemma {:induction false} RunsShape(fixed: seq<string>, lines: seq<string>)
    requires |lines| >= 1
    ensures var runs := RunsOfLines(fixed, lines);
      && |runs| == |lines| - 1 + (if ' ' in lines[|lines| - 1] then 1 else 0)
      && forall r :: r in runs ==> RunShape(fixed, r)
    decreases |lines|
  {
    VectorShape(fixed, CStrs(Split(lines[0], ' ')));
    if |lines| > 1 {
      RunsShape(fixed, lines[1..]);
      assert lines[1..][|lines[1..]| - 1] == lines[|lines| - 1];
    }
  }

  /** The arguments that follow the fixed ones in the vector for line
      `k` are the line's space-separated fields: splitting the input
      into lines and fields, and joining them back, gives the input. */
  lemma {:induction false} RunsFields(fixed: seq<string>, lines: seq<string>, k: nat)
    requires |lines| >= 1 && k < |RunsOfLines(fixed, lines)|
    ensures k < |lines|
    ensures RunsOfLines(fixed, lines)[k] == Vector(fixed + CStrs(Split(lines[k], ' ')))
    decreases |lines|
  {
    if |lines| > 1 && k > 0 {
      RunsFields(fixed, lines[1..], k - 1);
    }
  }

  /** A line of the input that a newline ends, with `n` fields, runs once
      with `n` arguments after the fixed ones; so an empty line runs with
      a single empty argument, and consecutive spaces give empty
      arguments. */
  lemma EmptyLineRunsWithEmptyArgument(argv: seq<string>, input: string, k: nat)
    requires k < |Split(input, '\n')| - 1 && Split(input, '\n')[k] == []
    ensures k < |Runs(argv, input)|
    ensures Runs(argv, input)[k] == Vector(Fixed(argv) + [[]])
  {
    var lines := Split(input, '\n');
    RunsShape(Fixed(argv), lines);
    RunsFields(Fixed(argv), lines, k);
    assert CStrs(Split([], ' ')) == [[]];
  }

  /** Input with no newline and no space runs nothing. */
  lemma LoneWordIsDropped(argv: seq<string>, input: string)
    requires '\n' !in input && ' ' !in input
    ensures Runs(argv, input) == []
  {
    SplitNone(input, '\n');
  }
}
