/** `CommandArguments`: the argument words of one command with a cursor that
  starts before the first word.
 */
module Arguments {
  import opened Wrappers
  import opened Strings

  datatype Cursor = Cursor(args: seq<string>, index: int)

  /** A fresh cursor, before the first argument. */
  function Fresh(args: seq<string>): (c: Cursor)
    ensures Count(c) == |args| && c.index == -1
  {
    Cursor(args, -1)
  }

  function Count(c: Cursor): nat {
    |c.args|
  }

  /** `Current`: the array access throws outside the arguments. */
  function Current(c: Cursor): (r: Result<string>)
    ensures r.Ok? <==> 0 <= c.index < Count(c)
    ensures r.Ok? ==> r.value == c.args[c.index]
    ensures r.Throw? ==> r.error == IndexOutOfRange
  {
    if 0 <= c.index < |c.args| then Ok(c.args[c.index]) else Throw(IndexOutOfRange)
  }

  /** `MoveNext`: pre-increment, then compare; the index keeps growing past
      the end. */
  function MoveNext(c: Cursor): (r: (bool, Cursor))
    ensures r.1.args == c.args && r.1.index == c.index + 1
    ensures r.0 <==> c.index + 1 < Count(c)
  {
    (c.index + 1 < |c.args|, c.(index := c.index + 1))
  }

  /** `MoveBack`: pre-decrement, then compare with 0, so index 0 is reported
      as not reached. */
  function MoveBack(c: Cursor): (r: (bool, Cursor))
    ensures r.1.args == c.args && r.1.index == c.index - 1
    ensures r.0 <==> c.index >= 2
  {
    (c.index - 1 > 0, c.(index := c.index - 1))
  }

  /** `MoveTo`: a relative move that only happens when it lands on an argument. */
  function MoveTo(c: Cursor, offset: int): (r: (bool, Cursor))
    ensures r.0 <==> 0 <= c.index + offset < Count(c)
    ensures r.0 ==> r.1 == c.(index := c.index + offset)
    ensures !r.0 ==> r.1 == c
  {
    var target := c.index + offset;
    if target < 0 || target >= |c.args| then (false, c) else (true, c.(index := target))
  }

  /** `Reset`. */
  function Reset(c: Cursor): (r: Cursor)
    ensures r == Fresh(c.args)
  {
    Cursor(c.args, -1)
  }

  /** `Peek`: a relative look that never moves; null outside the arguments. */
  function Peek(c: Cursor, offset: int): (r: Option<string>)
    ensures r.Some? <==> 0 <= c.index + offset < Count(c)
    ensures r.Some? ==> r.value == c.args[c.index + offset]
  {
    var target := c.index + offset;
    if target >= |c.args| || target < 0 then None else Some(c.args[target])
  }

  /** `ToString`: all arguments joined by single spaces, wherever the cursor is. */
  function ToString(c: Cursor): (r: string)
    ensures (|c.args| >= 1 && forall i :: 0 <= i < |c.args| ==> ' ' !in c.args[i]) ==> Split(r, {' '}) == c.args
  {
    JoinedWords(c.args);
    Join(" ", c.args)
  }

  lemma JoinedWords(args: seq<string>)
    ensures (|args| >= 1 && forall i :: 0 <= i < |args| ==> ' ' !in args[i]) ==> Split(Join(" ", args), {' '}) == args
  {
    if |args| >= 1 && forall i :: 0 <= i < |args| ==> ' ' !in args[i] {
      JoinSplit(args, ' ');
    }
  }

  /** A successful `MoveTo` lands where `Peek` with the same offset looked. */
  lemma MoveToPeek(c: Cursor, offset: int)
    ensures MoveTo(c, offset).0 <==> Peek(c, offset).Some?
    ensures MoveTo(c, offset).0 ==> Current(MoveTo(c, offset).1) == Ok(Peek(c, offset).value)
  {
  }

  /** Walking with `MoveNext` from a fresh cursor visits every argument in
      order: after k successful moves the cursor stands on argument k - 1. */
  lemma {:induction false} MoveNextWalk(args: seq<string>, k: nat)
    requires k <= |args|
    ensures var c := Walk(Fresh(args), k);
      c.args == args && c.index == k - 1 && (k > 0 ==> Current(c) == Ok(args[k - 1]))
    ensures k > 0 ==> MoveNext(Walk(Fresh(args), k - 1)).0
  {
    if k > 0 {
      MoveNextWalk(args, k - 1);
      assert Walk(Fresh(args), k) == MoveNext(Walk(Fresh(args), k - 1)).1;
    }
  }

  /** `k` calls of `MoveNext`. */
  function Walk(c: Cursor, k: nat): Cursor {
    if k == 0 then c else MoveNext(Walk(c, k - 1)).1
  }

  /** `MoveBack` from a fresh or reset cursor fails at once, so a loop driven
      by it never runs its body. */
  lemma MoveBackFromFresh(args: seq<string>)
    ensures !MoveBack(Fresh(args)).0
  {
  }
}
