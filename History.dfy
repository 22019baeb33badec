/** The undo history of src/composables/useHistory.ts: a stack of snapshots
    capped at `MaxHistorySize` entries, newest last. Saving pushes on top and,
    once the cap is exceeded, drops the oldest entry from the bottom; undo
    pops the newest.

    Snapshots hold immutable values, so the deep copy the source makes with a
    JSON round trip is the identity here: a stored snapshot cannot change
    when the caller later edits its own lines. */
module History {
  import opened Types

  const MaxHistorySize: nat := 50

  /** The stack after one `saveState` of `s` onto `h`. */
  function Pushed(h: seq<HistoryState>, s: HistoryState): seq<HistoryState> {
    var grown := h + [s];
    if |grown| > MaxHistorySize then grown[1..] else grown
  }

  /** What `undo` returns for the stack `h`. */
  function Top(h: seq<HistoryState>): Option<HistoryState> {
    if h == [] then None else Some(h[|h| - 1])
  }

  /** The stack left behind by `undo`. */
  function Pop(h: seq<HistoryState>): seq<HistoryState> {
    if h == [] then [] else h[..|h| - 1]
  }

  /** Popping takes off exactly the top entry: putting it back rebuilds the
      stack. */
  lemma PopThenPush(h: seq<HistoryState>)
    requires h != []
    ensures Top(h).Some? && Pop(h) + [Top(h).value] == h
  {
  }

  /** The stack after saving `ss` one after the other. */
  function PushAll(h: seq<HistoryState>, ss: seq<HistoryState>): seq<HistoryState>
    decreases |ss|
  {
    if ss == [] then h else PushAll(Pushed(h, ss[0]), ss[1..])
  }

  /** The newest `MaxHistorySize` entries of `xs`, in order. */
  function Window(xs: seq<HistoryState>): (r: seq<HistoryState>)
    ensures |r| <= MaxHistorySize
  {
    if |xs| > MaxHistorySize then xs[|xs| - MaxHistorySize..] else xs
  }

  /** Saving puts the snapshot on top and keeps the stack within the cap:
      below the top the old stack stays as it was, except that its bottom
      entry is dropped when the stack was already full. */
  lemma PushedShape(h: seq<HistoryState>, s: HistoryState)
    requires |h| <= MaxHistorySize
    ensures |Pushed(h, s)| <= MaxHistorySize
    ensures Top(Pushed(h, s)) == Some(s)
    ensures Pop(Pushed(h, s)) == if |h| < MaxHistorySize then h else h[1..]
  {
    var grown := h + [s];
    if |grown| > MaxHistorySize {
      assert grown[1..][..|grown| - 2] == h[1..];
    } else {
      assert grown[..|grown| - 1] == h;
    }
  }

  /** Undoing right after a save gives back the saved snapshot and, when the
      stack was not full, exactly the stack before the save. */
  lemma SaveThenUndo(h: seq<HistoryState>, s: HistoryState)
    requires |h| < MaxHistorySize
    ensures Top(Pushed(h, s)) == Some(s)
    ensures Pop(Pushed(h, s)) == h
  {
    PushedShape(h, s);
  }

  lemma WindowDropsOldest(xs: seq<HistoryState>)
    requires |xs| > MaxHistorySize
    ensures Window(xs[1..]) == Window(xs)
  {
    assert xs[1..][|xs| - 1 - MaxHistorySize..] == xs[|xs| - MaxHistorySize..];
  }

  /** Saving `x` and then appending `t` keeps the same newest entries as
      appending `x` and `t` to the unsaved stack. */
  lemma WindowAfterPush(h: seq<HistoryState>, x: HistoryState, t: seq<HistoryState>)
    requires |h| <= MaxHistorySize
    ensures Window(Pushed(h, x) + t) == Window(h + [x] + t)
  {
    var grown := h + [x];
    if |grown| > MaxHistorySize {
      assert Pushed(h, x) + t == (grown + t)[1..];
      WindowDropsOldest(grown + t);
    }
  }

  /** Saving a run of snapshots onto a stack within the cap leaves the newest
      `MaxHistorySize` entries of the old stack followed by the run. */
  lemma {:induction false} PushAllWindow(h: seq<HistoryState>, ss: seq<HistoryState>)
    requires |h| <= MaxHistorySize
    ensures PushAll(h, ss) == Window(h + ss)
    decreases |ss|
  {
    if ss == [] {
      assert h + ss == h;
    } else {
      var x, t := ss[0], ss[1..];
      PushedShape(h, x);
      PushAllWindow(Pushed(h, x), t);
      WindowAfterPush(h, x, t);
      assert h + ss == h + [x] + t;
    }
  }

  /** Spells out `Window` for callers that need the length and the suffix
      separately: all of `xs` while it fits under the cap, otherwise its last
      `MaxHistorySize` entries. The claim about saving is `PushAllWindow`. */
  lemma WindowShape(xs: seq<HistoryState>)
    ensures |Window(xs)| == if |xs| <= MaxHistorySize then |xs| else MaxHistorySize
    ensures Window(xs) == xs[|xs| - |Window(xs)|..]
  {
  }

  /** From an empty stack, sixty saves keep the fifty most recent, oldest
      first. */
  lemma SixtySaves(ss: seq<HistoryState>)
    requires |ss| == 60
    ensures PushAll([], ss) == ss[10..]
  {
    var empty: seq<HistoryState> := [];
    PushAllWindow(empty, ss);
    assert empty + ss == ss;
  }

  /** The state of `useHistory()`: the stack of snapshots. */
  class HistoryStore {
    var history: seq<HistoryState>

    ghost predicate Valid()
      reads this
    {
      |history| <= MaxHistorySize
    }

    constructor()
      ensures Valid() && history == []
    {
      history := [];
    }

    /** `saveState`: push the snapshot, then shift out the oldest entry if
        the stack has grown past the cap. */
    method SaveState(lines: seq<TextLine>, selectedLineId: Option<string>, selectedSegmentId: Option<string>)
      requires Valid()
      modifies this
      ensures Valid()
      ensures history == Pushed(old(history), HistoryState(lines, selectedLineId, selectedSegmentId))
    {
      var state := HistoryState(lines, selectedLineId, selectedSegmentId);
      history := history + [state];
      if |history| > MaxHistorySize {
        history := history[1..];
      }
    }

    /** `undo`: nothing on an empty stack, otherwise pop the newest entry. */
    method Undo() returns (r: Option<HistoryState>)
      requires Valid()
      modifies this
      ensures Valid()
      ensures r == Top(old(history)) && history == Pop(old(history))
      ensures old(history) == [] ==> r == None && history == old(history)
    {
      if |history| == 0 {
        return None;
      }
      r := Some(history[|history| - 1]);
      history := history[..|history| - 1];
    }

    /** `canUndo`. */
    method CanUndo() returns (b: bool)
      ensures b <==> history != []
    {
      b := |history| > 0;
    }

    /** `clearHistory`. */
    method ClearHistory()
      modifies this
      ensures Valid() && history == []
    {
      history := [];
    }
  }
}
