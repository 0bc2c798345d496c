/**
 * How `foreach` turns its command-line arguments into one shell command:
 * the arguments are joined with a separator between neighbours, as Go's
 * `strings.Join` does. `Split`, Go's `strings.Split` for a one-character
 * separator, is the inverse it is checked against.
 */
module ArgJoin {

  /** The arguments with `sep` between each two neighbours; empty for no arguments. */
  function Join(args: seq<string>, sep: string): (joined: string)
    ensures |args| == 0 ==> joined == ""
    ensures |args| >= 1 ==> args[0] <= joined
  {
    if |args| == 0 then ""
    else if |args| == 1 then args[0]
    else args[0] + sep + Join(args[1..], sep)
  }

  /** The pieces of `s` between occurrences of `c`; always at least one piece. */
  function Split(s: string, c: char): (pieces: seq<string>)
    ensures |pieces| >= 1
  {
    if s == [] then [""]
    else
      var rest := Split(s[1..], c);
      if s[0] == c then [""] + rest else [[s[0]] + rest[0]] + rest[1..]
  }

  /** Total length of the arguments. */
  function TotalLength(args: seq<string>): nat
  {
    if args == [] then 0 else |args[0]| + TotalLength(args[1..])
  }

  /** A prefix without `c` merges into the first piece of what follows it. */
  lemma {:induction false} SplitPrefix(a: string, t: string, c: char)
    requires c !in a
    ensures Split(a + t, c) == [a + Split(t, c)[0]] + Split(t, c)[1..]
  {
    if a != [] {
      SplitPrefix(a[1..], t, c);
      assert (a + t)[1..] == a[1..] + t;
      assert [a[0]] + (a[1..] + Split(t, c)[0]) == a + Split(t, c)[0];
    } else {
      assert a + t == t;
      assert a + Split(t, c)[0] == Split(t, c)[0];
    }
  }

  /**
   * Joining at least one argument with a one-character separator that no
   * argument contains, then splitting at that character, gives the
   * arguments back.
   */
  lemma {:induction false} SplitJoin(args: seq<string>, c: char)
    requires |args| >= 1
    requires forall i :: 0 <= i < |args| ==> c !in args[i]
    ensures Split(Join(args, [c]), c) == args
  {
    if |args| == 1 {
      SplitPrefix(args[0], [], c);
      assert args[0] + [] == args[0];
    } else {
      var tail := Join(args[1..], [c]);
      SplitJoin(args[1..], c);
      SplitPrefix(args[0], [c] + tail, c);
      assert ([c] + tail)[1..] == tail;
      assert args[0] + [c] + tail == args[0] + ([c] + tail);
      assert args[0] + "" == args[0];
      assert [args[0]] + args[1..] == args;
    }
  }

  /** The joined string holds every character of every argument plus one separator per gap. */
  lemma {:induction false} JoinLength(args: seq<string>, sep: string)
    requires |args| >= 1
    ensures |Join(args, sep)| == TotalLength(args) + (|args| - 1) * |sep|
  {
    if |args| > 1 {
      JoinLength(args[1..], sep);
    }
  }

  /** Joining two non-empty lists one after the other is joining their concatenation. */
  lemma {:induction false} JoinAppend(a: seq<string>, b: seq<string>, sep: string)
    requires |a| >= 1 && |b| >= 1
    ensures Join(a + b, sep) == Join(a, sep) + sep + Join(b, sep)
  {
    if |a| == 1 {
      assert (a + b)[1..] == b;
    } else {
      JoinAppend(a[1..], b, sep);
      assert (a + b)[1..] == a[1..] + b;
    }
  }
}
