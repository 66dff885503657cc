/**
 Grouping the frames of a stack trace (`src/domain.rs`): runs of two or more library frames
 collapse, everything else stays.
 */
module FrameGroups {
  datatype Frame = Frame(name: string, inApp: bool)

  datatype Group = Single(frame: Frame) | LibraryRun(run: seq<Frame>) {
    function Frames(): seq<Frame> {
      match this case Single(f) => [f] case LibraryRun(run) => run
    }

    predicate Library() { match this case Single(f) => !f.inApp case LibraryRun(_) => true }

    /** A run has at least two frames, and only library frames. */
    ghost predicate Valid() {
      LibraryRun? ==> |run| >= 2 && forall i :: 0 <= i < |run| ==> !run[i].inApp
    }
  }

  function Flatten(groups: seq<Group>): seq<Frame> {
    if groups == [] then [] else groups[0].Frames() + Flatten(groups[1..])
  }

  /** Flattening gives the frames back in order, groups are valid, and no two neighbours are both library. */
  ghost predicate IsGrouping(groups: seq<Group>, frames: seq<Frame>) {
    && Flatten(groups) == frames
    && (forall i :: 0 <= i < |groups| ==> groups[i].Valid())
    && (forall i :: 0 <= i < |groups| - 1 ==> !(groups[i].Library() && groups[i + 1].Library()))
  }

  lemma {:induction false} FlattenAppend(groups: seq<Group>, g: Group)
    ensures Flatten(groups + [g]) == Flatten(groups) + g.Frames()
  {
    if groups == [] {
      assert groups + [g] == [g];
      assert Flatten([]) == [] && [g][1..] == [];
    } else {
      assert (groups + [g])[1..] == groups[1..] + [g];
      FlattenAppend(groups[1..], g);
    }
  }

  /** One more group at the end. */
  lemma GroupingAppend(groups: seq<Group>, frames: seq<Frame>, g: Group)
    requires IsGrouping(groups, frames) && g.Valid()
    requires groups != [] && groups[|groups| - 1].Library() ==> !g.Library()
    ensures IsGrouping(groups + [g], frames + g.Frames())
  {
    FlattenAppend(groups, g);
  }

  /** The source's `frame_groups`. */
  method GroupFrames(frames: seq<Frame>) returns (out: seq<Group>)
    ensures IsGrouping(out, frames)
  {
    hide IsGrouping;
    out := [];
    NoGroups();
    assert frames[..0] == [];
    var i := 0;
    while i < |frames|
      invariant 0 <= i <= |frames|
      invariant IsGrouping(out, frames[..i])
      invariant out != [] && out[|out| - 1].Library() && i < |frames| ==> frames[i].inApp
    {
      var g: Group;
      var start := i;
      if frames[i].inApp {
        g := Single(frames[i]);
        i := i + 1;
      } else {
        while i < |frames| && !frames[i].inApp
          invariant start <= i <= |frames|
          invariant forall k :: start <= k < i ==> !frames[k].inApp
        {
          i := i + 1;
        }
        g := if i - start >= 2 then LibraryRun(frames[start..i]) else Single(frames[start]);
      }
      assert g.Frames() == frames[start..i];
      GroupingAppend(out, frames[..start], g);
      assert frames[..start] + frames[start..i] == frames[..i];
      out := out + [g];
    }
    assert frames[..|frames|] == frames;
  }

  lemma NoGroups()
    ensures IsGrouping([], [])
  {
  }

  // ---- There is no other grouping ----------------------------------------------------------

  /** How many library frames the trace starts with. */
  function LibraryPrefix(frames: seq<Frame>): (n: nat)
    ensures n <= |frames|
  {
    if frames == [] || frames[0].inApp then 0 else 1 + LibraryPrefix(frames[1..])
  }

  lemma {:induction false} LibraryPrefixIs(frames: seq<Frame>, n: nat)
    requires n <= |frames| && forall i :: 0 <= i < n ==> !frames[i].inApp
    requires n < |frames| ==> frames[n].inApp
    ensures LibraryPrefix(frames) == n
  {
    if n != 0 {
      LibraryPrefixIs(frames[1..], n - 1);
    }
  }

  lemma HeadAndTail(groups: seq<Group>, frames: seq<Frame>)
    requires groups != [] && IsGrouping(groups, frames)
    ensures var k := |groups[0].Frames()|;
            1 <= k <= |frames| && groups[0].Frames() == frames[..k] && IsGrouping(groups[1..], frames[k..])
  {
    var k := |groups[0].Frames()|;
    assert frames == groups[0].Frames() + Flatten(groups[1..]);
    assert frames[k..] == Flatten(groups[1..]);
  }

  /** The first group of any grouping is determined by the frames. */
  lemma FirstGroup(groups: seq<Group>, frames: seq<Frame>)
    requires groups != [] && IsGrouping(groups, frames)
    ensures frames != []
    ensures groups[0] == if frames[0].inApp then Single(frames[0])
                         else if LibraryPrefix(frames) >= 2 then LibraryRun(frames[..LibraryPrefix(frames)])
                         else Single(frames[0])
  {
    HeadAndTail(groups, frames);
    var k := |groups[0].Frames()|;
    if groups[0].Library() {
      forall i | 0 <= i < k
        ensures !frames[i].inApp
      {
        assert frames[i] == groups[0].Frames()[i];
      }
      if k < |frames| {
        assert groups[1..] != [];
        HeadAndTail(groups[1..], frames[k..]);
        assert !groups[1].Library();
        assert groups[1].Frames() == [frames[k]];
      }
      LibraryPrefixIs(frames, k);
    }
  }

  /** It is the only grouping. */
  lemma {:induction false} GroupingIsUnique(a: seq<Group>, b: seq<Group>, frames: seq<Frame>)
    requires IsGrouping(a, frames) && IsGrouping(b, frames)
    ensures a == b
    decreases |a|
  {
    if a != [] && b != [] {
      FirstGroup(a, frames);
      FirstGroup(b, frames);
      HeadAndTail(a, frames);
      HeadAndTail(b, frames);
      GroupingIsUnique(a[1..], b[1..], frames[|a[0].Frames()|..]);
      assert a == [a[0]] + a[1..] && b == [b[0]] + b[1..];
    } else if a != [] {
      HeadAndTail(a, frames);
    } else if b != [] {
      HeadAndTail(b, frames);
    }
  }
}
