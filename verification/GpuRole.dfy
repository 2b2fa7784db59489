/** Whether a GPU can be handed to a guest, from its IOMMU group. */
module GpuRoles {
  import opened Wrappers

  datatype LockReason = IommuOff | SharedWithFramebuffer | SharedWithPlatform

  datatype GpuRole = Framebuffer | Leasable | Locked(reason: LockReason)

  /** What the system directories say: which devices are bridges, and the devices of each group,
      in directory order, when they can be listed. */
  datatype Sys = Sys(bridges: set<string>, groups: map<nat, seq<string>>)

  /** The address without its function: everything before the last dot. */
  function BdfRoot(bdf: string): string {
    if bdf == "" then ""
    else if '.' !in bdf then bdf
    else if bdf[|bdf| - 1] == '.' then bdf[..|bdf| - 1]
    else BdfRoot(bdf[..|bdf| - 1])
  }

  /** A device that may share the group of a leased GPU: itself, a function of the same card, or a bridge. */
  predicate Harmless(other: string, bdf: string, framebuffer: Option<string>, bridges: set<string>) {
    other == bdf || (framebuffer != Some(other) && (BdfRoot(other) == BdfRoot(bdf) || other in bridges))
  }

  /** The first device of the group that rules out a lease. */
  function Blocker(
      others: seq<string>, bdf: string, framebuffer: Option<string>, bridges: set<string>): Option<string> {
    if others == [] then None
    else if Harmless(others[0], bdf, framebuffer, bridges) then Blocker(others[1..], bdf, framebuffer, bridges)
    else Some(others[0])
  }

  function Role(bdf: string, framebuffer: Option<string>, group: Option<nat>, sys: Sys): GpuRole {
    if framebuffer == Some(bdf) then Framebuffer
    else if group.None? || group.value !in sys.groups then Locked(IommuOff)
    else
      match Blocker(sys.groups[group.value], bdf, framebuffer, sys.bridges)
      case None => Leasable
      case Some(d) => Locked(if framebuffer == Some(d) then SharedWithFramebuffer else SharedWithPlatform)
  }

  method ComputeRole(bdf: string, framebuffer: Option<string>, group: Option<nat>, sys: Sys) returns (role: GpuRole)
    ensures role == Role(bdf, framebuffer, group, sys)
    ensures role == Leasable ==>
      forall other | other in sys.groups[group.value] :: Harmless(other, bdf, framebuffer, sys.bridges)
  {
    if framebuffer == Some(bdf) {
      return Framebuffer;
    }
    if group.None? || group.value !in sys.groups {
      return Locked(IommuOff);
    }
    var others := sys.groups[group.value];
    assert others[0..] == others;
    for i := 0 to |others|
      invariant Blocker(others, bdf, framebuffer, sys.bridges) == Blocker(others[i..], bdf, framebuffer, sys.bridges)
      invariant forall k :: 0 <= k < i ==> Harmless(others[k], bdf, framebuffer, sys.bridges)
    {
      var other := others[i];
      assert others[i..][1..] == others[i + 1..];
      if other == bdf {
        continue;
      }
      if framebuffer == Some(other) {
        return Locked(SharedWithFramebuffer);
      }
      if BdfRoot(other) == BdfRoot(bdf) {
        continue;
      }
      if other in sys.bridges {
        continue;
      }
      return Locked(SharedWithPlatform);
    }
    role := Leasable;
  }

  /** The display's GPU is its own case, and a missing or unlistable group locks any other. */
  lemma RoleWithoutGroupIff(bdf: string, framebuffer: Option<string>, group: Option<nat>, sys: Sys)
    ensures Role(bdf, framebuffer, group, sys) == Framebuffer <==> framebuffer == Some(bdf)
    ensures Role(bdf, framebuffer, group, sys) == Locked(IommuOff) <==>
      framebuffer != Some(bdf) && !(group.Some? && group.value in sys.groups)
  {
  }

  lemma {:induction false} NoBlockerIff(
      others: seq<string>, bdf: string, framebuffer: Option<string>, bridges: set<string>)
    ensures Blocker(others, bdf, framebuffer, bridges).None? <==>
      forall o | o in others :: Harmless(o, bdf, framebuffer, bridges)
  {
    if others != [] {
      NoBlockerIff(others[1..], bdf, framebuffer, bridges);
      assert others == [others[0]] + others[1..];
    }
  }

  /** Being leasable depends on which devices share the group, not on the order of its directory. */
  lemma LeasableIgnoresOrder(bdf: string, framebuffer: Option<string>, group: nat, sys: Sys, sys': Sys)
    requires group in sys.groups && group in sys'.groups && sys.bridges == sys'.bridges
    requires forall o :: o in sys.groups[group] <==> o in sys'.groups[group]
    ensures Role(bdf, framebuffer, Some(group), sys) == Leasable <==>
      Role(bdf, framebuffer, Some(group), sys') == Leasable
  {
    NoBlockerIff(sys.groups[group], bdf, framebuffer, sys.bridges);
    NoBlockerIff(sys'.groups[group], bdf, framebuffer, sys.bridges);
  }

  /** The root drops the function and its dot; an address without a dot is its own root. */
  lemma {:induction false} RootOf(root: string, fun: string)
    requires '.' !in fun
    ensures BdfRoot(root + "." + fun) == root
    ensures BdfRoot(fun) == fun
  {
    var s := root + "." + fun;
    assert s[|root|] == '.';
    if fun == "" {
      assert s[..|s| - 1] == root;
    } else {
      var front := fun[..|fun| - 1];
      assert s[..|s| - 1] == root + "." + front;
      RootOf(root, front);
    }
  }

  lemma {:induction false} RootOnly(s: string) returns (fun: string)
    requires '.' in s
    ensures '.' !in fun && s == BdfRoot(s) + "." + fun
  {
    var last := s[|s| - 1];
    if last == '.' {
      fun := "";
    } else {
      var rest := RootOnly(s[..|s| - 1]);
      fun := rest + [last];
    }
  }

  /** A device of the card with this root: one of its functions, or the root itself. */
  ghost predicate OnCard(root: string, o: string) {
    (exists fun :: '.' !in fun && o == root + "." + fun) || (o == root && '.' !in root)
  }

  lemma OnCardIff(root: string, o: string)
    ensures OnCard(root, o) <==> BdfRoot(o) == root
  {
    if fun :| '.' !in fun && o == root + "." + fun {
      RootOf(root, fun);
    } else if '.' in o {
      var fun := RootOnly(o);
    } else {
      RootOf("", o);
    }
  }

  /** A GPU that does not drive the display can be leased exactly when its group can be listed and
      holds, besides bridges, only functions of the same card, none of which drives the display. */
  lemma LeasableIff(root: string, fun: string, framebuffer: Option<string>, group: nat, sys: Sys)
    requires '.' !in fun && framebuffer != Some(root + "." + fun)
    ensures Role(root + "." + fun, framebuffer, Some(group), sys) == Leasable <==>
      && group in sys.groups
      && forall o | o in sys.groups[group] :: framebuffer != Some(o) && (OnCard(root, o) || o in sys.bridges)
  {
    RootOf(root, fun);
    if group in sys.groups {
      NoBlockerIff(sys.groups[group], root + "." + fun, framebuffer, sys.bridges);
      forall o | o in sys.groups[group]
        ensures Harmless(o, root + "." + fun, framebuffer, sys.bridges) <==>
          framebuffer != Some(o) && (OnCard(root, o) || o in sys.bridges)
      {
        OnCardIff(root, o);
      }
    }
  }

  /** The functions of one card are leasable together or not at all, where the group lists the one
      that drives the display, if any of them does. */
  lemma CardIsLeasedWhole(a: string, b: string, framebuffer: Option<string>, group: nat, sys: Sys)
    requires BdfRoot(a) == BdfRoot(b)
    requires (framebuffer == Some(a) || framebuffer == Some(b)) && group in sys.groups ==>
      framebuffer.value in sys.groups[group]
    ensures Role(a, framebuffer, Some(group), sys) == Leasable <==> Role(b, framebuffer, Some(group), sys) == Leasable
  {
    if group in sys.groups {
      NoBlockerIff(sys.groups[group], a, framebuffer, sys.bridges);
      NoBlockerIff(sys.groups[group], b, framebuffer, sys.bridges);
    }
  }

  // ---- when the order of the directory matters ----

  lemma {:induction false} BlockerIsHarmful(
      others: seq<string>, bdf: string, framebuffer: Option<string>, bridges: set<string>)
    ensures
      var d := Blocker(others, bdf, framebuffer, bridges);
      d.Some? ==> d.value in others && !Harmless(d.value, bdf, framebuffer, bridges)
  {
    if others != [] {
      BlockerIsHarmful(others[1..], bdf, framebuffer, bridges);
    }
  }

  /** The same devices in another order. */
  ghost predicate Reordered(listing: seq<string>, others: seq<string>) {
    multiset(listing) == multiset(others)
  }

  function Listed(sys: Sys, group: nat, listing: seq<string>): Sys {
    sys.(groups := sys.groups[group := listing])
  }

  /** The group holds the display's device, which is not the GPU itself, and another harmful one. */
  predicate Contested(bdf: string, framebuffer: Option<string>, bridges: set<string>, others: seq<string>) {
    && framebuffer.Some? && framebuffer != Some(bdf) && framebuffer.value in others
    && exists o | o in others :: o != framebuffer.value && !Harmless(o, bdf, framebuffer, bridges)
  }

  ghost predicate OrderMatters(bdf: string, framebuffer: Option<string>, group: nat, sys: Sys)
    requires group in sys.groups
  {
    exists listing :: Reordered(listing, sys.groups[group]) &&
      Role(bdf, framebuffer, Some(group), Listed(sys, group, listing)) != Role(bdf, framebuffer, Some(group), sys)
  }

  lemma SameMembers(listing: seq<string>, others: seq<string>)
    requires Reordered(listing, others)
    ensures forall o :: o in listing <==> o in others
  {
    forall o ensures o in listing <==> o in others {
      assert o in listing <==> o in multiset(listing);
      assert o in others <==> o in multiset(others);
    }
  }

  /** Any device of a listing can come first in another. */
  lemma BroughtForward(others: seq<string>, d: string) returns (listing: seq<string>)
    requires d in others
    ensures listing != [] && listing[0] == d && Reordered(listing, others)
  {
    var k :| 0 <= k < |others| && others[k] == d;
    listing := [d] + (others[..k] + others[k + 1..]);
    assert others == others[..k] + ([d] + others[k + 1..]);
    assert multiset(others) == multiset(others[..k]) + multiset([d] + others[k + 1..]);
    assert multiset(listing) == multiset([d]) + multiset(others[..k] + others[k + 1..]);
  }

  /** The role depends on directory order exactly when the group is contested: then the one listed
      first decides which reason a lock is given. */
  lemma OrderMattersIff(bdf: string, framebuffer: Option<string>, group: nat, sys: Sys)
    requires group in sys.groups
    ensures OrderMatters(bdf, framebuffer, group, sys) <==> Contested(bdf, framebuffer, sys.bridges, sys.groups[group])
  {
    var others := sys.groups[group];
    if Contested(bdf, framebuffer, sys.bridges, others) {
      var o :| o in others && o != framebuffer.value && !Harmless(o, bdf, framebuffer, sys.bridges);
      var one := BroughtForward(others, framebuffer.value);
      var two := BroughtForward(others, o);
      assert Role(bdf, framebuffer, Some(group), Listed(sys, group, one)) == Locked(SharedWithFramebuffer);
      assert Role(bdf, framebuffer, Some(group), Listed(sys, group, two)) == Locked(SharedWithPlatform);
    } else {
      forall listing | Reordered(listing, others)
        ensures Role(bdf, framebuffer, Some(group), Listed(sys, group, listing)) ==
          Role(bdf, framebuffer, Some(group), sys)
      {
        SameMembers(listing, others);
        NoBlockerIff(listing, bdf, framebuffer, sys.bridges);
        NoBlockerIff(others, bdf, framebuffer, sys.bridges);
        BlockerIsHarmful(listing, bdf, framebuffer, sys.bridges);
        BlockerIsHarmful(others, bdf, framebuffer, sys.bridges);
      }
    }
  }

  /** Two devices suffice to show it. */
  lemma LockReasonDependsOnOrder(bdf: string, display: string, usb: string, group: nat)
    requires bdf != display && usb != bdf && usb != display
    requires BdfRoot(usb) != BdfRoot(bdf)
    ensures Role(bdf, Some(display), Some(group), Sys({}, map[group := [display, usb]])) ==
      Locked(SharedWithFramebuffer)
    ensures Role(bdf, Some(display), Some(group), Sys({}, map[group := [usb, display]])) ==
      Locked(SharedWithPlatform)
  {
  }
}
