/** The side navigation dots: each dot names the section it scrolls to
    (its `data-target`), and when a section comes into view the dot naming
    it becomes the active one. The dots' `active` classes are an array of
    flags, `active[i]` belonging to the dot whose target is `targets[i]`. */
module NavDots {

  datatype Option<T> = None | Some(value: T)

  /** The flags the toggle rule leaves: a dot is active exactly when its
      target is the id of the section reported in view. */
  function ActiveFlags(targets: seq<string>, sectionId: string): (flags: seq<bool>)
    ensures |flags| == |targets|
    ensures forall i :: 0 <= i < |targets| ==> (flags[i] <==> targets[i] == sectionId)
  {
    if targets == [] then [] else [targets[0] == sectionId] + ActiveFlags(targets[1..], sectionId)
  }

  /** No two dots name the same section. */
  predicate Distinct(targets: seq<string>) {
    forall i, j :: 0 <= i < j < |targets| ==> targets[i] != targets[j]
  }

  /** With distinct targets, no two dots are active at once. */
  lemma AtMostOneActive(targets: seq<string>, sectionId: string, i: int, j: int)
    requires Distinct(targets)
    requires 0 <= i < |targets| && 0 <= j < |targets|
    requires ActiveFlags(targets, sectionId)[i] && ActiveFlags(targets, sectionId)[j]
    ensures i == j
  {
  }

  /** The number of active dots. */
  function CountActive(flags: seq<bool>): (n: nat)
    ensures n <= |flags|
  {
    if flags == [] then 0 else (if flags[0] then 1 else 0) + CountActive(flags[1..])
  }

  /** With distinct targets exactly one dot is active when the section has
      a dot, and none otherwise. */
  lemma {:induction false} ActiveCount(targets: seq<string>, sectionId: string)
    requires Distinct(targets)
    ensures CountActive(ActiveFlags(targets, sectionId)) == if sectionId in targets then 1 else 0
    decreases |targets|
  {
    if targets != [] {
      var rest := targets[1..];
      assert ActiveFlags(targets, sectionId)[1..] == ActiveFlags(rest, sectionId);
      assert Distinct(rest) by {
        forall i, j | 0 <= i < j < |rest| ensures rest[i] != rest[j] {
          assert rest[i] == targets[i + 1] && rest[j] == targets[j + 1];
        }
      }
      ActiveCount(rest, sectionId);
      if targets[0] == sectionId {
        assert sectionId !in rest by {
          forall k | 0 <= k < |rest| ensures rest[k] != sectionId {
            assert rest[k] == targets[k + 1];
          }
        }
      } else {
        assert targets == [targets[0]] + rest;
      }
    }
  }

  /** One run of the dot loop for a section reported in view: every dot's
      `active` class is toggled to whether its target is that section. */
  method ToggleActive(active: array<bool>, targets: seq<string>, sectionId: string)
    requires active.Length == |targets|
    modifies active
    ensures active[..] == ActiveFlags(targets, sectionId)
  {
    var i := 0;
    while i < active.Length
      invariant 0 <= i <= active.Length
      invariant forall k :: 0 <= k < i ==> (active[k] <==> targets[k] == sectionId)
    {
      active[i] := targets[i] == sectionId;
      i := i + 1;
    }
  }

  /** One entry of an intersection report: a section and whether it is in view. */
  datatype Entry = Entry(isIntersecting: bool, targetId: string)

  /** The id of the last section in the report that is in view, if any. */
  function LastIntersecting(entries: seq<Entry>): (r: Option<string>)
    ensures r.None? <==> forall k :: 0 <= k < |entries| ==> !entries[k].isIntersecting
    ensures r.Some? ==> exists k :: (0 <= k < |entries| && entries[k].isIntersecting &&
      entries[k].targetId == r.value && forall l :: k < l < |entries| ==> !entries[l].isIntersecting)
    decreases |entries|
  {
    if entries == [] then None
    else
      var last := entries[|entries| - 1];
      if last.isIntersecting then Some(last.targetId)
      else LastIntersecting(entries[..|entries| - 1])
  }

  /** The flags after a whole report: the last section in view decides, and
      a report with no section in view leaves the flags alone. */
  function FlagsAfter(flags: seq<bool>, targets: seq<string>, entries: seq<Entry>): seq<bool> {
    match LastIntersecting(entries)
    case None => flags
    case Some(id) => ActiveFlags(targets, id)
  }

  /** The section observer's callback: the dot loop runs once for every
      entry that is in view, in the order of the report. */
  method OnSectionEntries(active: array<bool>, targets: seq<string>, entries: seq<Entry>)
    requires active.Length == |targets|
    modifies active
    ensures active[..] == FlagsAfter(old(active[..]), targets, entries)
  {
    var i := 0;
    while i < |entries|
      invariant 0 <= i <= |entries|
      invariant active[..] == FlagsAfter(old(active[..]), targets, entries[..i])
    {
      assert entries[..i + 1][..i] == entries[..i];
      if entries[i].isIntersecting {
        ToggleActive(active, targets, entries[i].targetId);
      }
      i := i + 1;
    }
    assert entries[..i] == entries;
  }
}
