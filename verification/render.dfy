/**
 * Rendering a task list as Markdown bullet lines, one `    - <name>` line
 * per task in list order.
 */
module Render {
  import opened Options

  /** The indentation and dash before each task name. */
  const BulletPrefix := "    - "

  /** The bullet lines of a task list. */
  function Bullets(tasks: seq<string>): (lines: seq<string>)
    ensures |lines| == |tasks|
    ensures forall i :: 0 <= i < |tasks| ==> lines[i] == BulletPrefix + tasks[i]
  {
    if tasks == [] then [] else [BulletPrefix + tasks[0]] + Bullets(tasks[1..])
  }

  /** The task name of a bullet line, or None for a line that is not a bullet. */
  function TaskOfLine(line: string): Option<string>
  {
    if |line| >= |BulletPrefix| && line[..|BulletPrefix|] == BulletPrefix
    then Some(line[|BulletPrefix|..])
    else None
  }

  /** Reading the task names back from the bullets gives the list, in order. */
  lemma BulletsReadBack(tasks: seq<string>)
    ensures forall i :: 0 <= i < |tasks| ==> TaskOfLine(Bullets(tasks)[i]) == Some(tasks[i])
  {
    forall i | 0 <= i < |tasks|
      ensures TaskOfLine(Bullets(tasks)[i]) == Some(tasks[i])
    {
      var line := BulletPrefix + tasks[i];
      assert line[..|BulletPrefix|] == BulletPrefix;
      assert line[|BulletPrefix|..] == tasks[i];
    }
  }

  /** Rendering two lists one after the other renders their concatenation. */
  lemma {:induction false} BulletsAppend(a: seq<string>, b: seq<string>)
    ensures Bullets(a + b) == Bullets(a) + Bullets(b)
  {
    if a != [] {
      assert (a + b)[1..] == a[1..] + b;
      BulletsAppend(a[1..], b);
    }
  }

  /**
   * The command's printing loop: one bullet line per task, in order; an
   * empty list prints nothing.
   */
  method PrintTasks(tasks: seq<string>) returns (lines: seq<string>)
    ensures lines == Bullets(tasks)
    ensures tasks == [] ==> lines == []
  {
    lines := [];
    var i := 0;
    while i < |tasks|
      invariant 0 <= i <= |tasks|
      invariant |lines| == i
      invariant forall k :: 0 <= k < i ==> lines[k] == BulletPrefix + tasks[k]
    {
      lines := lines + [BulletPrefix + tasks[i]];
      i := i + 1;
    }
  }
}
