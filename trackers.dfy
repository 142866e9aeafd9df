/** The water counter (app.js:58-61) and the task list (app.js:80-90). */
module Trackers {

  class WaterCounter {
    var count: int

    /** The count read back from storage; parsing it is not modelled. */
    constructor (stored: int)
      ensures count == stored
    {
      count := stored;
    }

    method Increment()
      modifies this
      ensures count == old(count) + 1
    {
      count := count + 1;
    }

    /** Takes one glass off, never going below zero. */
    method Decrement()
      modifies this
      ensures count == if old(count) > 0 then old(count) - 1 else old(count)
      ensures old(count) >= 0 ==> count >= 0
    {
      if count > 0 {
        count := count - 1;
      }
    }
  }

  datatype Task = Task(text: string, due: string, done: bool)

  /** The characters trim removes: the ECMAScript WhiteSpace and LineTerminator code points. */
  predicate IsSpace(c: char): (b: bool)
    ensures c == ' ' || c == '\t' || c == '\n' || c == '\r' || c as int == 0xA0 ==> b
    ensures '0' <= c <= '9' || 'a' <= c <= 'z' || 'A' <= c <= 'Z' ==> !b
  {
    var n := c as int;
    n == 0x09 || n == 0x0A || n == 0x0B || n == 0x0C || n == 0x0D || n == 0x20 || n == 0xA0 ||
    n == 0x1680 || (0x2000 <= n <= 0x200A) || n == 0x2028 || n == 0x2029 || n == 0x202F ||
    n == 0x205F || n == 0x3000 || n == 0xFEFF
  }

  predicate AllSpace(s: string)
  {
    forall i :: 0 <= i < |s| ==> IsSpace(s[i])
  }

  /** The first index at or after i that is not white space (|s| if none). */
  function SkipStart(s: string, i: nat): (j: nat)
    requires i <= |s|
    ensures i <= j <= |s|
    ensures forall k :: i <= k < j ==> IsSpace(s[k])
    ensures j == |s| || !IsSpace(s[j])
    decreases |s| - i
  {
    if i == |s| || !IsSpace(s[i]) then i else SkipStart(s, i + 1)
  }

  /** The end of s[lo..j] once its trailing white space is dropped. */
  function SkipEnd(s: string, lo: nat, j: nat): (e: nat)
    requires lo <= j <= |s|
    ensures lo <= e <= j
    ensures forall k :: e <= k < j ==> IsSpace(s[k])
    ensures e == lo || !IsSpace(s[e - 1])
  {
    if j == lo || !IsSpace(s[j - 1]) then j else SkipEnd(s, lo, j - 1)
  }

  /**
   * What trim leaves of a text: it drops exactly the white space at both ends. The
   * result is a slice of s, everything cut off is white space, and the result
   * neither starts nor ends with white space.
   */
  function Trim(s: string): (t: string)
    ensures exists i, j :: 0 <= i <= j <= |s| && t == s[i..j] && AllSpace(s[..i]) && AllSpace(s[j..])
    ensures t == [] || (!IsSpace(t[0]) && !IsSpace(t[|t| - 1]))
  {
    var i := SkipStart(s, 0);
    var j := SkipEnd(s, i, |s|);
    assert AllSpace(s[..i]) && AllSpace(s[j..]);
    s[i..j]
  }

  /** A text trims to nothing exactly when it is all white space. */
  lemma TrimEmpty(s: string)
    ensures Trim(s) == [] <==> AllSpace(s)
  {
    var i := SkipStart(s, 0);
    var j := SkipEnd(s, i, |s|);
    if Trim(s) == [] {
      assert i == j;
    }
  }

  /** Trimming twice is the same as trimming once. */
  lemma TrimIdempotent(s: string)
    ensures Trim(Trim(s)) == Trim(s)
  {
    var t := Trim(s);
    if t != [] {
      assert SkipStart(t, 0) == 0;
      assert SkipEnd(t, 0, |t|) == |t|;
    }
    assert t[0..|t|] == t;
  }

  /** The list after the done button of task i: that task's flag is flipped. */
  function Toggled(ts: seq<Task>, i: nat): (r: seq<Task>)
    requires i < |ts|
    ensures |r| == |ts| && r[i].done != ts[i].done
    ensures r[i].text == ts[i].text && r[i].due == ts[i].due
    ensures forall j :: 0 <= j < |ts| && j != i ==> r[j] == ts[j]
  {
    ts[i := ts[i].(done := !ts[i].done)]
  }

  /** The list after the delete button of task i: one task fewer; an index past the end removes nothing. */
  function Spliced(ts: seq<Task>, i: nat): (r: seq<Task>)
    ensures i < |ts| ==> |r| == |ts| - 1 && multiset(r) + multiset{ts[i]} == multiset(ts)
    ensures i >= |ts| ==> r == ts
  {
    if i < |ts| then
      assert ts == ts[..i] + [ts[i]] + ts[i + 1..];
      ts[..i] + ts[i + 1..]
    else ts
  }

  /** Toggling the same task twice restores the list. */
  lemma ToggledFacts(ts: seq<Task>, i: nat)
    requires i < |ts|
    ensures Toggled(Toggled(ts, i), i) == ts
  {
  }

  /** Deleting task i shortens the list by one and shifts the later tasks down by one. */
  lemma SplicedFacts(ts: seq<Task>, i: nat)
    requires i < |ts|
    ensures |Spliced(ts, i)| == |ts| - 1
    ensures forall j :: 0 <= j < |ts| - 1 ==> Spliced(ts, i)[j] == ts[if j < i then j else j + 1]
  {
    var r := ts[..i] + ts[i + 1..];
    forall j | 0 <= j < |ts| - 1
      ensures r[j] == ts[if j < i then j else j + 1]
    {
      if j >= i {
        assert r[j] == ts[i + 1..][j - i];
      }
    }
  }

  class TaskList {
    var tasks: seq<Task>

    /** The list read back from storage; parsing it is not modelled. */
    constructor (stored: seq<Task>)
      ensures tasks == stored
    {
      tasks := stored;
    }

    /** The form submit handler: a text that trims to nothing adds no task. */
    method Add(raw: string, due: string) returns (added: bool)
      modifies this
      ensures added <==> !AllSpace(raw)
      ensures tasks == if added then old(tasks) + [Task(Trim(raw), due, false)] else old(tasks)
    {
      TrimEmpty(raw);
      var text := Trim(raw);
      if text == "" {
        return false;
      }
      tasks := tasks + [Task(text, due, false)];
      added := true;
    }

    method Toggle(i: nat)
      requires i < |tasks|
      modifies this
      ensures tasks == Toggled(old(tasks), i)
    {
      var task := tasks[i];
      tasks := tasks[i := task.(done := !task.done)];
    }

    method Delete(i: nat)
      modifies this
      ensures tasks == Spliced(old(tasks), i)
    {
      if i < |tasks| {
        tasks := tasks[..i] + tasks[i + 1..];
      }
    }
  }
}
