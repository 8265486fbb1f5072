/** Gadget fingerprints of a process or file, and the structural diff of two
    fingerprints (lib/Fingerprint.go). */
module Fingerprints {
  import opened Types

  /** A gadget signature (the instruction text that identifies a gadget). */
  type Sig = string

  /** A code address (`disasm.Ptr`). */
  type Ptr = u64

  /** `memaccess.MemoryRegion`: where a region starts, how long it is, and
      the kind of mapping it belongs to (its name in a fingerprint). */
  datatype MemoryRegion = MemoryRegion(address: Ptr, size: nat, kind: string)

  /** The zero value of `memaccess.MemoryRegion`: what `section` holds before
      the first region callback. */
  const ZeroRegion: MemoryRegion := MemoryRegion(0, 0, "")

  datatype Gadget = Gadget(address: Ptr, signature: Sig)

  /** One region of a fingerprint: the region itself and, for each gadget
      signature seen in it, the addresses where that gadget was found. */
  datatype FingerprintRegion = FingerprintRegion(region: MemoryRegion, gadgets: map<Sig, seq<Ptr>>)

  /** Region kind -> fingerprint of that region. */
  type FingerprintTable = map<string, FingerprintRegion>

  /** What the gadget search reports, in order: entering a region (the first
      callback) or finding a gadget in the current region (the second). */
  datatype GadgetEvent = RegionEntered(region: MemoryRegion) | GadgetFound(gadget: Gadget)

  /*************************************************************************
   * Reference view of a gadget search: each gadget with its region
   *************************************************************************/

  /** The region that is current once `events` have been reported. */
  function SectionAfter(events: seq<GadgetEvent>): MemoryRegion
  {
    if events == [] then ZeroRegion
    else match events[|events| - 1]
      case RegionEntered(r) => r
      case GadgetFound(_) => SectionAfter(events[..|events| - 1])
  }

  /** A gadget together with the region that was current when it arrived. */
  datatype Arrival = Arrival(region: MemoryRegion, gadget: Gadget)

  /** The gadgets of `events` in arrival order, each with its region. */
  function Arrivals(events: seq<GadgetEvent>): seq<Arrival>
  {
    if events == [] then []
    else
      var init := events[..|events| - 1];
      match events[|events| - 1]
      case RegionEntered(_) => Arrivals(init)
      case GadgetFound(g) => Arrivals(init) + [Arrival(SectionAfter(init), g)]
  }

  /** Kinds of the regions some gadget arrived in. */
  function KindsOf(a: seq<Arrival>): set<string>
  {
    set i | 0 <= i < |a| :: a[i].region.kind
  }

  /** Signatures of the gadgets that arrived in a region of kind `kind`. */
  function SigsOf(a: seq<Arrival>, kind: string): set<Sig>
  {
    set i | 0 <= i < |a| && a[i].region.kind == kind :: a[i].gadget.signature
  }

  /** The addresses of the gadgets with signature `sig` that arrived in a
      region of kind `kind`, in arrival order. */
  function AddressesUnder(a: seq<Arrival>, kind: string, sig: Sig): seq<Ptr>
  {
    if a == [] then []
    else
      var x := a[|a| - 1];
      AddressesUnder(a[..|a| - 1], kind, sig)
        + (if x.region.kind == kind && x.gadget.signature == sig then [x.gadget.address] else [])
  }

  /** The position of the first gadget that arrived in a region of kind `kind`. */
  function FirstIndexOf(a: seq<Arrival>, kind: string): (i: nat)
    requires kind in KindsOf(a)
    ensures i < |a| && a[i].region.kind == kind
    ensures forall j :: 0 <= j < i ==> a[j].region.kind != kind
  {
    var init := a[..|a| - 1];
    if kind in KindsOf(init) then
      assert forall j :: 0 <= j < |init| ==> init[j] == a[j];
      FirstIndexOf(init, kind)
    else
      assert forall j :: 0 <= j < |init| ==> a[j].region.kind == init[j].region.kind;
      |a| - 1
  }

  /** `t` is the fingerprint of the arrivals `a`: one entry per region kind a
      gadget arrived in, holding the region of the first such gadget and, per
      signature seen there, the addresses in arrival order. */
  ghost predicate Describes(t: FingerprintTable, a: seq<Arrival>)
  {
    && t.Keys == KindsOf(a)
    && (forall kind :: kind in t ==> t[kind].region == a[FirstIndexOf(a, kind)].region)
    && (forall kind :: kind in t ==> t[kind].gadgets.Keys == SigsOf(a, kind))
    && (forall kind, sig :: kind in t && sig in t[kind].gadgets ==>
          t[kind].gadgets[sig] == AddressesUnder(a, kind, sig))
  }

  /*************************************************************************
   * Fingerprint (lib/Fingerprint.go:8-23)
   *************************************************************************/

  /** The gadget callback: file the gadget's address under the current
      section's kind and the gadget's signature, creating the kind's entry
      from the current section when it has none yet. */
  function WithGadget(t: FingerprintTable, section: MemoryRegion, g: Gadget): (t': FingerprintTable)
    ensures t'.Keys == t.Keys + {section.kind}
    ensures forall kind :: kind in t && kind != section.kind ==> t'[kind] == t[kind]
    ensures t'[section.kind].region == if section.kind in t then t[section.kind].region else section
    ensures var before := if section.kind in t then t[section.kind].gadgets else map[];
            && t'[section.kind].gadgets.Keys == before.Keys + {g.signature}
            && (forall sig :: sig in before && sig != g.signature ==> t'[section.kind].gadgets[sig] == before[sig])
            && t'[section.kind].gadgets[g.signature]
                 == (if g.signature in before then before[g.signature] else []) + [g.address]
  {
    var entry := if section.kind in t then t[section.kind] else FingerprintRegion(section, map[]);
    var addresses := if g.signature in entry.gadgets then entry.gadgets[g.signature] else [];
    t[section.kind := entry.(gadgets := entry.gadgets[g.signature := addresses + [g.address]])]
  }

  /** Builds the fingerprint of a gadget search that reported `events`. */
  method Fingerprint(events: seq<GadgetEvent>) returns (fingerprint: FingerprintTable)
    ensures Describes(fingerprint, Arrivals(events))
  {
    fingerprint := map[];
    var section := ZeroRegion;
    for i := 0 to |events|
      invariant section == SectionAfter(events[..i])
      invariant Describes(fingerprint, Arrivals(events[..i]))
    {
      assert events[..i + 1][..i] == events[..i];
      match events[i]
      case RegionEntered(region) =>
        section := region;
      case GadgetFound(gadget) =>
        DescribesWithGadget(fingerprint, Arrivals(events[..i]), section, gadget);
        fingerprint := WithGadget(fingerprint, section, gadget);
    }
    assert events[..|events|] == events;
  }

  lemma {:induction false} AddressesUnderEmpty(a: seq<Arrival>, kind: string, sig: Sig)
    requires sig !in SigsOf(a, kind)
    ensures AddressesUnder(a, kind, sig) == []
  {
    if a != [] {
      var init := a[..|a| - 1];
      assert SigsOf(init, kind) <= SigsOf(a, kind) by {
        forall s | s in SigsOf(init, kind) ensures s in SigsOf(a, kind) {
          var j :| 0 <= j < |init| && init[j].region.kind == kind && init[j].gadget.signature == s;
          assert a[j] == init[j];
        }
      }
      AddressesUnderEmpty(init, kind, sig);
      assert a[|a| - 1].gadget.signature in SigsOf(a, kind) || a[|a| - 1].region.kind != kind;
    }
  }

  lemma KindsOfAppend(a: seq<Arrival>, x: Arrival)
    ensures KindsOf(a + [x]) == KindsOf(a) + {x.region.kind}
  {
    var a' := a + [x];
    forall k | k in KindsOf(a') ensures k in KindsOf(a) + {x.region.kind} {
      var j :| 0 <= j < |a'| && a'[j].region.kind == k;
      if j < |a| { assert a[j].region.kind == k; }
    }
    forall k | k in KindsOf(a) ensures k in KindsOf(a') {
      var j :| 0 <= j < |a| && a[j].region.kind == k;
      assert a'[j].region.kind == k;
    }
    assert a'[|a|].region.kind == x.region.kind;
  }

  lemma SigsOfAppend(a: seq<Arrival>, x: Arrival, kind: string)
    ensures SigsOf(a + [x], kind) == SigsOf(a, kind) + (if x.region.kind == kind then {x.gadget.signature} else {})
  {
    var a' := a + [x];
    forall s | s in SigsOf(a', kind)
      ensures s in SigsOf(a, kind) + (if x.region.kind == kind then {x.gadget.signature} else {})
    {
      var j :| 0 <= j < |a'| && a'[j].region.kind == kind && a'[j].gadget.signature == s;
      if j < |a| { assert a[j].region.kind == kind && a[j].gadget.signature == s; }
    }
    forall s | s in SigsOf(a, kind) ensures s in SigsOf(a', kind) {
      var j :| 0 <= j < |a| && a[j].region.kind == kind && a[j].gadget.signature == s;
      assert a'[j].region.kind == kind && a'[j].gadget.signature == s;
    }
    if x.region.kind == kind {
      assert a'[|a|].region.kind == kind && a'[|a|].gadget.signature == x.gadget.signature;
    }
  }

  lemma FirstIndexOfAppend(a: seq<Arrival>, x: Arrival, kind: string)
    requires kind in KindsOf(a + [x])
    ensures kind in KindsOf(a) ==> FirstIndexOf(a + [x], kind) == FirstIndexOf(a, kind)
    ensures kind !in KindsOf(a) ==> FirstIndexOf(a + [x], kind) == |a|
  {
    assert (a + [x])[..|a|] == a;
  }

  /** Recording one more gadget keeps the table a fingerprint of the arrivals. */
  lemma DescribesWithGadget(t: FingerprintTable, a: seq<Arrival>, section: MemoryRegion, g: Gadget)
    requires Describes(t, a)
    ensures Describes(WithGadget(t, section, g), a + [Arrival(section, g)])
  {
    KindsOfAppend(a, Arrival(section, g));
    RegionsWithGadget(t, a, section, g);
    SignaturesWithGadget(t, a, section, g);
    forall kind, sig | kind in WithGadget(t, section, g) && sig in WithGadget(t, section, g)[kind].gadgets
      ensures WithGadget(t, section, g)[kind].gadgets[sig] == AddressesUnder(a + [Arrival(section, g)], kind, sig)
    {
      AddressesWithGadget(t, a, section, g, kind, sig);
    }
  }

  lemma RegionsWithGadget(t: FingerprintTable, a: seq<Arrival>, section: MemoryRegion, g: Gadget)
    requires Describes(t, a)
    ensures var a', t' := a + [Arrival(section, g)], WithGadget(t, section, g);
            forall kind :: kind in t' ==> kind in KindsOf(a') && t'[kind].region == a'[FirstIndexOf(a', kind)].region
  {
    var x := Arrival(section, g);
    var a' := a + [x];
    var t' := WithGadget(t, section, g);
    KindsOfAppend(a, x);
    forall kind | kind in t'
      ensures kind in KindsOf(a') && t'[kind].region == a'[FirstIndexOf(a', kind)].region
    {
      FirstIndexOfAppend(a, x, kind);
      if kind in KindsOf(a) {
        assert a'[FirstIndexOf(a, kind)] == a[FirstIndexOf(a, kind)];
      }
    }
  }

  lemma SignaturesWithGadget(t: FingerprintTable, a: seq<Arrival>, section: MemoryRegion, g: Gadget)
    requires Describes(t, a)
    ensures var a', t' := a + [Arrival(section, g)], WithGadget(t, section, g);
            forall kind :: kind in t' ==> t'[kind].gadgets.Keys == SigsOf(a', kind)
  {
    forall kind | kind in WithGadget(t, section, g)
      ensures WithGadget(t, section, g)[kind].gadgets.Keys == SigsOf(a + [Arrival(section, g)], kind)
    {
      SigsOfAppend(a, Arrival(section, g), kind);
    }
  }

  lemma AddressesWithGadget(t: FingerprintTable, a: seq<Arrival>, section: MemoryRegion, g: Gadget, kind: string, sig: Sig)
    requires Describes(t, a)
    requires kind in WithGadget(t, section, g) && sig in WithGadget(t, section, g)[kind].gadgets
    ensures WithGadget(t, section, g)[kind].gadgets[sig] == AddressesUnder(a + [Arrival(section, g)], kind, sig)
  {
    var a' := a + [Arrival(section, g)];
    assert a'[..|a|] == a;
    assert AddressesUnder(a', kind, sig)
      == AddressesUnder(a, kind, sig) + (if kind == section.kind && sig == g.signature then [g.address] else []);
    if kind !in t || sig !in t[kind].gadgets {
      AddressesUnderEmpty(a, kind, sig);
    }
  }

  /** Addresses are filed in arrival order: the list for a later batch of
      arrivals extends the list for an earlier one. */
  lemma {:induction false} AddressesUnderAppend(a: seq<Arrival>, b: seq<Arrival>, kind: string, sig: Sig)
    ensures AddressesUnder(a + b, kind, sig) == AddressesUnder(a, kind, sig) + AddressesUnder(b, kind, sig)
    decreases |b|
  {
    if b == [] {
      assert a + b == a;
    } else {
      var b0 := b[..|b| - 1];
      assert (a + b)[..|a + b| - 1] == a + b0;
      AddressesUnderAppend(a, b0, kind, sig);
    }
  }

  /** A kind's stored region is fixed by its first gadget: later arrivals
      never change which arrival comes first for that kind. */
  lemma {:induction false} FirstIndexStable(a: seq<Arrival>, b: seq<Arrival>, kind: string)
    requires kind in KindsOf(a)
    ensures kind in KindsOf(a + b)
    ensures FirstIndexOf(a + b, kind) == FirstIndexOf(a, kind)
  {
    var i := FirstIndexOf(a, kind);
    assert (a + b)[i] == a[i];
    assert forall j :: 0 <= j < |a| ==> (a + b)[j] == a[j];
  }

  /** In a fingerprint every stored region is of its own kind and no gadget
      list is empty (so a nil list in Go means an absent signature). */
  lemma FingerprintWellFormed(t: FingerprintTable, a: seq<Arrival>)
    requires Describes(t, a)
    ensures forall kind :: kind in t ==> t[kind].region.kind == kind
    ensures forall kind, sig :: kind in t && sig in t[kind].gadgets ==> |t[kind].gadgets[sig]| > 0
  {
    forall kind, sig | kind in t && sig in t[kind].gadgets
      ensures |t[kind].gadgets[sig]| > 0
    {
      var j :| 0 <= j < |a| && a[j].region.kind == kind && a[j].gadget.signature == sig;
      AddressesUnderNonEmpty(a, kind, sig, j);
    }
  }

  /** A gadget of signature `sig` arrived in a region of kind `kind` puts
      at least one address on that list. */
  lemma {:induction false} AddressesUnderNonEmpty(a: seq<Arrival>, kind: string, sig: Sig, j: nat)
    requires j < |a| && a[j].region.kind == kind && a[j].gadget.signature == sig
    ensures |AddressesUnder(a, kind, sig)| > 0
  {
    if j < |a| - 1 {
      var init := a[..|a| - 1];
      assert init[j] == a[j];
      AddressesUnderNonEmpty(init, kind, sig, j);
    }
  }

  /*************************************************************************
   * Region comparison (lib/Fingerprint.go:44-71)
   *************************************************************************/

  /** The comparison of one region kind present in both fingerprints.
      gadgetDisplacements maps an old gadget address to its distances to
      every new address with the same signature. */
  datatype FingerprintRegionComparison = FingerprintRegionComparison(
    region: MemoryRegion,
    displacement: u64,
    gadgetDisplacements: map<Ptr, seq<u64>>,
    addedGadgets: map<Sig, seq<Ptr>>)

  /** Reading a signature that is absent gives Go's nil (empty) slice. */
  function Lookup(gadgets: map<Sig, seq<Ptr>>, sig: Sig): seq<Ptr>
  {
    if sig in gadgets then gadgets[sig] else []
  }

  /** Every address filed under some signature. */
  function AddressesOf(gadgets: map<Sig, seq<Ptr>>): set<Ptr>
  {
    set sig, p | sig in gadgets && p in gadgets[sig] :: p
  }

  /** Every address filed under one of the signatures `sigs`. */
  function AddressesIn(gadgets: map<Sig, seq<Ptr>>, sigs: set<Sig>): set<Ptr>
  {
    set sig, p | sig in sigs && sig in gadgets && p in gadgets[sig] :: p
  }

  /** `d` lists, in order, the distance from `oldAddress` to each of `newAddresses`. */
  predicate IsDisplacementList(d: seq<u64>, newAddresses: seq<Ptr>, oldAddress: Ptr)
  {
    |d| == |newAddresses| && forall j :: 0 <= j < |d| ==> d[j] == Sub64(newAddresses[j], oldAddress)
  }

  /** The displacement list `d` of old address `p` is the one computed for
      signature `sig` of the old region. */
  ghost predicate WrittenFor(d: seq<u64>, before: FingerprintRegion, after: FingerprintRegion, p: Ptr, sig: Sig)
  {
    sig in before.gadgets && p in before.gadgets[sig] && IsDisplacementList(d, Lookup(after.gadgets, sig), p)
  }

  /** `c` is a comparison of `before` with `after`: it keeps the old region,
      holds the region's wrapping displacement, has one displacement list per
      old address (that of one signature the address is filed under: when an
      address is filed under several, Go's map order picks which), and lists
      exactly the signatures that are new, with their new addresses. */
  ghost predicate IsRegionComparison(c: FingerprintRegionComparison, before: FingerprintRegion, after: FingerprintRegion)
  {
    && c.region == before.region
    && c.displacement == Sub64(after.region.address, before.region.address)
    && c.gadgetDisplacements.Keys == AddressesOf(before.gadgets)
    && (forall p :: p in c.gadgetDisplacements ==>
          exists sig :: WrittenFor(c.gadgetDisplacements[p], before, after, p, sig))
    && c.addedGadgets.Keys == after.gadgets.Keys - before.gadgets.Keys
    && (forall sig :: sig in c.addedGadgets ==> c.addedGadgets[sig] == after.gadgets[sig])
  }

  /** The inner loop: the displacements from one old address to every new address. */
  method Displacements(newAddresses: seq<Ptr>, oldAddress: Ptr) returns (offsets: seq<u64>)
    ensures IsDisplacementList(offsets, newAddresses, oldAddress)
  {
    var buffer := new u64[|newAddresses|];
    for j := 0 to buffer.Length
      invariant forall k :: 0 <= k < j ==> buffer[k] == Sub64(newAddresses[k], oldAddress)
    {
      buffer[j] := Sub64(newAddresses[j], oldAddress);
    }
    offsets := buffer[..];
  }

  lemma AddressesInGrow(gadgets: map<Sig, seq<Ptr>>, sigs: set<Sig>, sig: Sig)
    requires sig in gadgets
    ensures AddressesIn(gadgets, sigs + {sig}) == AddressesIn(gadgets, sigs) + (set j | 0 <= j < |gadgets[sig]| :: gadgets[sig][j])
  {
    var lhs := AddressesIn(gadgets, sigs + {sig});
    var rhs := AddressesIn(gadgets, sigs) + (set j | 0 <= j < |gadgets[sig]| :: gadgets[sig][j]);
    forall p | p in lhs ensures p in rhs {
      var s :| s in sigs + {sig} && s in gadgets && p in gadgets[s];
      if s == sig {
        var j :| 0 <= j < |gadgets[sig]| && gadgets[sig][j] == p;
      }
    }
    forall p | p in rhs ensures p in lhs {
      if p !in AddressesIn(gadgets, sigs) {
        var j :| 0 <= j < |gadgets[sig]| && gadgets[sig][j] == p;
        assert sig in sigs + {sig} && p in gadgets[sig];
      }
    }
  }

  method CompareFingerprintRegions(before: FingerprintRegion, after: FingerprintRegion)
    returns (ret: FingerprintRegionComparison)
    ensures IsRegionComparison(ret, before, after)
  {
    var gadgetDisplacements := GadgetDisplacements(before, after);
    var addedGadgets := AddedGadgets(before, after);
    ret := FingerprintRegionComparison(
      before.region,
      Sub64(after.region.address, before.region.address),
      gadgetDisplacements,
      addedGadgets);
  }

  /** The first loop of compareFingerprintRegions: for every old signature
      and every old address under it, the displacements to the new addresses
      of that signature; a later signature overwrites an earlier one's list
      for an address filed under both. */
  method GadgetDisplacements(before: FingerprintRegion, after: FingerprintRegion)
    returns (gadgetDisplacements: map<Ptr, seq<u64>>)
    ensures gadgetDisplacements.Keys == AddressesOf(before.gadgets)
    ensures forall p :: p in gadgetDisplacements ==>
              exists sig :: WrittenFor(gadgetDisplacements[p], before, after, p, sig)
  {
    gadgetDisplacements := map[];
    ghost var writer: map<Ptr, Sig> := map[];
    ghost var visited: set<Sig> := {};
    var pending := before.gadgets.Keys;
    while pending != {}
      invariant pending + visited == before.gadgets.Keys && pending !! visited
      invariant gadgetDisplacements.Keys == AddressesIn(before.gadgets, visited)
      invariant writer.Keys == gadgetDisplacements.Keys
      invariant forall p :: p in writer ==> WrittenFor(gadgetDisplacements[p], before, after, p, writer[p])
      decreases pending
    {
      var sig :| sig in pending;
      gadgetDisplacements, writer := DisplacementsOfSignature(gadgetDisplacements, writer, before, after, sig);
      AddressesInGrow(before.gadgets, visited, sig);
      visited := visited + {sig};
      pending := pending - {sig};
    }
    assert AddressesIn(before.gadgets, visited) == AddressesOf(before.gadgets);
    forall p | p in gadgetDisplacements
      ensures exists sig :: WrittenFor(gadgetDisplacements[p], before, after, p, sig)
    {
      assert WrittenFor(gadgetDisplacements[p], before, after, p, writer[p]);
    }
  }

  /** The inner loop of compareFingerprintRegions for one old signature:
      each of its old addresses gets the displacements to the new addresses
      of the signature, replacing any list the address had. */
  method DisplacementsOfSignature(gadgetDisplacements: map<Ptr, seq<u64>>, ghost writer: map<Ptr, Sig>,
                                  before: FingerprintRegion, after: FingerprintRegion, sig: Sig)
    returns (updated: map<Ptr, seq<u64>>, ghost writer': map<Ptr, Sig>)
    requires sig in before.gadgets
    requires writer.Keys == gadgetDisplacements.Keys
    requires forall p :: p in writer ==> WrittenFor(gadgetDisplacements[p], before, after, p, writer[p])
    ensures updated.Keys == gadgetDisplacements.Keys
                            + (set j | 0 <= j < |before.gadgets[sig]| :: before.gadgets[sig][j])
    ensures writer'.Keys == updated.Keys
    ensures forall p :: p in writer' ==> WrittenFor(updated[p], before, after, p, writer'[p])
    ensures forall p :: p in before.gadgets[sig] ==>
              writer'[p] == sig && IsDisplacementList(updated[p], Lookup(after.gadgets, sig), p)
    ensures forall p :: p in gadgetDisplacements && p !in before.gadgets[sig] ==>
              updated[p] == gadgetDisplacements[p] && writer'[p] == writer[p]
  {
    updated := gadgetDisplacements;
    var addresses := before.gadgets[sig];
    var newAddresses := Lookup(after.gadgets, sig);
    for i := 0 to |addresses|
      invariant forall p :: p in updated <==> p in gadgetDisplacements || p in addresses[..i]
      invariant forall p :: p in addresses[..i] ==> IsDisplacementList(updated[p], newAddresses, p)
      invariant forall p :: p in gadgetDisplacements && p !in addresses[..i] ==>
                  updated[p] == gadgetDisplacements[p]
    {
      var oldAddress := addresses[i];
      var offsets := Displacements(newAddresses, oldAddress);
      updated := updated[oldAddress := offsets];
      assert addresses[..i + 1] == addresses[..i] + [oldAddress];
    }
    assert addresses[..|addresses|] == addresses;
    writer' := map p | p in updated :: if p in addresses then sig else writer[p];
    IndexSet(addresses);
  }

  /** The elements of a sequence, collected by index. */
  lemma IndexSet<T>(s: seq<T>)
    ensures (set j | 0 <= j < |s| :: s[j]) == set x | x in s
  {
    forall x | x in s ensures x in (set j | 0 <= j < |s| :: s[j]) {
      var j :| 0 <= j < |s| && s[j] == x;
    }
  }

  /** The second loop of compareFingerprintRegions: every new signature the
      old region lacks, with its new addresses. */
  method AddedGadgets(before: FingerprintRegion, after: FingerprintRegion)
    returns (addedGadgets: map<Sig, seq<Ptr>>)
    ensures addedGadgets.Keys == after.gadgets.Keys - before.gadgets.Keys
    ensures forall sig :: sig in addedGadgets ==> addedGadgets[sig] == after.gadgets[sig]
  {
    addedGadgets := map[];
    var unseen := after.gadgets.Keys;
    while unseen != {}
      invariant unseen <= after.gadgets.Keys
      invariant addedGadgets.Keys == (after.gadgets.Keys - unseen) - before.gadgets.Keys
      invariant forall sig :: sig in addedGadgets ==> addedGadgets[sig] == after.gadgets[sig]
      decreases unseen
    {
      var sig :| sig in unseen;
      if sig !in before.gadgets {
        addedGadgets := addedGadgets[sig := after.gadgets[sig]];
      }
      unseen := unseen - {sig};
    }
  }

  /*************************************************************************
   * Fingerprint comparison (lib/Fingerprint.go:25-42)
   *************************************************************************/

  datatype FingerprintComparison = FingerprintComparison(
    removedRegions: seq<MemoryRegion>,
    addedRegions: seq<MemoryRegion>,
    sharedRegionComparisons: seq<FingerprintRegionComparison>)

  /** `names` lists every element of `keys` exactly once, in some order. */
  ghost predicate Enumerates(names: seq<string>, keys: set<string>)
  {
    && Distinct(names)
    && (forall i :: 0 <= i < |names| ==> names[i] in keys)
    && (forall k :: k in keys ==> k in names)
  }

  /** `c` compares `before` with `after`, region names being listed in the
      (unspecified) order given by the three name sequences: the regions only
      `before` has, a comparison for each region both have, and the regions
      only `after` has. */
  ghost predicate IsComparison(c: FingerprintComparison, before: FingerprintTable, after: FingerprintTable,
                               removedNames: seq<string>, sharedNames: seq<string>, addedNames: seq<string>)
  {
    && Enumerates(removedNames, before.Keys - after.Keys)
    && |c.removedRegions| == |removedNames|
    && (forall i :: 0 <= i < |removedNames| ==> c.removedRegions[i] == before[removedNames[i]].region)
    && Enumerates(sharedNames, before.Keys * after.Keys)
    && |c.sharedRegionComparisons| == |sharedNames|
    && (forall i :: 0 <= i < |sharedNames| ==>
          IsRegionComparison(c.sharedRegionComparisons[i], before[sharedNames[i]], after[sharedNames[i]]))
    && Enumerates(addedNames, after.Keys - before.Keys)
    && |c.addedRegions| == |addedNames|
    && (forall i :: 0 <= i < |addedNames| ==> c.addedRegions[i] == after[addedNames[i]].region)
  }

  method CompareFingerprints(before: FingerprintTable, after: FingerprintTable)
    returns (ret: FingerprintComparison,
             ghost removedNames: seq<string>, ghost sharedNames: seq<string>, ghost addedNames: seq<string>)
    ensures IsComparison(ret, before, after, removedNames, sharedNames, addedNames)
    ensures |ret.removedRegions| == |before.Keys - after.Keys|
    ensures |ret.sharedRegionComparisons| == |before.Keys * after.Keys|
    ensures |ret.addedRegions| == |after.Keys - before.Keys|
  {
    var removed, shared;
    removed, shared, removedNames, sharedNames := OldRegions(before, after);
    var added;
    added, addedNames := NewRegions(before, after);
    ret := FingerprintComparison(removed, added, shared);
    EnumerationSize(removedNames, before.Keys - after.Keys);
    EnumerationSize(sharedNames, before.Keys * after.Keys);
    EnumerationSize(addedNames, after.Keys - before.Keys);
  }

  /** The first loop of compareFingerprints: every old region either is
      missing from `after` (removed) or is compared with its namesake. */
  method OldRegions(before: FingerprintTable, after: FingerprintTable)
    returns (removed: seq<MemoryRegion>, shared: seq<FingerprintRegionComparison>,
             ghost removedNames: seq<string>, ghost sharedNames: seq<string>)
    ensures Enumerates(removedNames, before.Keys - after.Keys)
    ensures |removed| == |removedNames|
    ensures forall i :: 0 <= i < |removedNames| ==> removed[i] == before[removedNames[i]].region
    ensures Enumerates(sharedNames, before.Keys * after.Keys)
    ensures |shared| == |sharedNames|
    ensures forall i :: 0 <= i < |sharedNames| ==>
              IsRegionComparison(shared[i], before[sharedNames[i]], after[sharedNames[i]])
  {
    removed, shared := [], [];
    removedNames, sharedNames := [], [];
    var pending := before.Keys;
    while pending != {}
      invariant pending <= before.Keys
      invariant Enumerates(removedNames, (before.Keys - pending) - after.Keys)
      invariant Enumerates(sharedNames, (before.Keys - pending) * after.Keys)
      invariant |removed| == |removedNames|
      invariant forall i :: 0 <= i < |removedNames| ==> removed[i] == before[removedNames[i]].region
      invariant |shared| == |sharedNames|
      invariant forall i :: 0 <= i < |sharedNames| ==>
                  IsRegionComparison(shared[i], before[sharedNames[i]], after[sharedNames[i]])
      decreases pending
    {
      var regionName :| regionName in pending;
      if regionName !in after {
        removed := removed + [before[regionName].region];
        removedNames := removedNames + [regionName];
      } else {
        var comparison := CompareFingerprintRegions(before[regionName], after[regionName]);
        shared := shared + [comparison];
        sharedNames := sharedNames + [regionName];
      }
      pending := pending - {regionName};
    }
  }

  /** The second loop of compareFingerprints: every new region missing from
      `before` is added. */
  method NewRegions(before: FingerprintTable, after: FingerprintTable)
    returns (added: seq<MemoryRegion>, ghost addedNames: seq<string>)
    ensures Enumerates(addedNames, after.Keys - before.Keys)
    ensures |added| == |addedNames|
    ensures forall i :: 0 <= i < |addedNames| ==> added[i] == after[addedNames[i]].region
  {
    added, addedNames := [], [];
    var unseen := after.Keys;
    while unseen != {}
      invariant unseen <= after.Keys
      invariant Enumerates(addedNames, (after.Keys - unseen) - before.Keys)
      invariant |added| == |addedNames|
      invariant forall i :: 0 <= i < |addedNames| ==> added[i] == after[addedNames[i]].region
      decreases unseen
    {
      var regionName :| regionName in unseen;
      if regionName !in before {
        added := added + [after[regionName].region];
        addedNames := addedNames + [regionName];
      }
      unseen := unseen - {regionName};
    }
  }

  lemma {:induction false} EnumerationSize(names: seq<string>, keys: set<string>)
    requires Enumerates(names, keys)
    ensures |keys| == |names|
  {
    if names != [] {
      var init := names[..|names| - 1];
      var last := names[|names| - 1];
      forall k | k in keys - {last} ensures k in init {
        var i :| 0 <= i < |names| && names[i] == k;
        assert i != |names| - 1;
        assert init[i] == k;
      }
      EnumerationSize(init, keys - {last});
    }
  }

  /** Every old region name is either removed or shared, never both, and
      every new one is either shared or added. */
  lemma ComparisonPartitionsNames(c: FingerprintComparison, before: FingerprintTable, after: FingerprintTable,
                                  removedNames: seq<string>, sharedNames: seq<string>, addedNames: seq<string>)
    requires IsComparison(c, before, after, removedNames, sharedNames, addedNames)
    ensures forall name :: name in before ==> (name in removedNames <==> name !in sharedNames)
    ensures forall name :: name in after ==> (name in addedNames <==> name !in sharedNames)
    ensures forall name :: name in removedNames || name in sharedNames ==> name in before
    ensures forall name :: name in addedNames || name in sharedNames ==> name in after
  {
    forall name | name in removedNames ensures name !in after {
      var i :| 0 <= i < |removedNames| && removedNames[i] == name;
    }
    forall name | name in sharedNames ensures name in before && name in after {
      var i :| 0 <= i < |sharedNames| && sharedNames[i] == name;
    }
    forall name | name in addedNames ensures name !in before {
      var i :| 0 <= i < |addedNames| && addedNames[i] == name;
    }
  }

  /** The three lists account for each region of both fingerprints exactly once. */
  lemma ComparisonSizes(c: FingerprintComparison, before: FingerprintTable, after: FingerprintTable,
                        removedNames: seq<string>, sharedNames: seq<string>, addedNames: seq<string>)
    requires IsComparison(c, before, after, removedNames, sharedNames, addedNames)
    ensures |c.removedRegions| + |c.sharedRegionComparisons| == |before|
    ensures |c.sharedRegionComparisons| + |c.addedRegions| == |after|
  {
    EnumerationSize(removedNames, before.Keys - after.Keys);
    EnumerationSize(sharedNames, before.Keys * after.Keys);
    EnumerationSize(addedNames, after.Keys - before.Keys);
    SplitSize(before.Keys, after.Keys);
    SplitSize(after.Keys, before.Keys);
    assert after.Keys * before.Keys == before.Keys * after.Keys;
  }

  lemma SplitSize(x: set<string>, y: set<string>)
    ensures |x - y| + |x * y| == |x|
  {
    assert (x - y) + (x * y) == x;
    assert (x - y) * (x * y) == {};
  }

  /** Comparing a fingerprint with itself removes and adds nothing; every
      shared region has displacement zero and no added gadgets, and every old
      address finds itself at distance zero. */
  lemma SelfComparison(c: FingerprintComparison, t: FingerprintTable,
                       removedNames: seq<string>, sharedNames: seq<string>, addedNames: seq<string>)
    requires IsComparison(c, t, t, removedNames, sharedNames, addedNames)
    ensures c.removedRegions == [] && c.addedRegions == []
    ensures |c.sharedRegionComparisons| == |t|
    ensures forall i :: 0 <= i < |c.sharedRegionComparisons| ==>
              && c.sharedRegionComparisons[i].displacement == 0
              && c.sharedRegionComparisons[i].addedGadgets == map[]
    ensures forall i, p :: 0 <= i < |c.sharedRegionComparisons| && p in c.sharedRegionComparisons[i].gadgetDisplacements ==>
              0 in c.sharedRegionComparisons[i].gadgetDisplacements[p]
  {
    assert t.Keys - t.Keys == {} && t.Keys * t.Keys == t.Keys;
    EnumerationSize(removedNames, t.Keys - t.Keys);
    EnumerationSize(sharedNames, t.Keys * t.Keys);
    EnumerationSize(addedNames, t.Keys - t.Keys);
    forall i | 0 <= i < |c.sharedRegionComparisons|
      ensures c.sharedRegionComparisons[i].displacement == 0
      ensures c.sharedRegionComparisons[i].addedGadgets == map[]
    {
      var cmp := c.sharedRegionComparisons[i];
      var r := t[sharedNames[i]];
      ZeroDisplacement(r.region.address, r.region.address);
      assert cmp.addedGadgets.Keys == {};
    }
    forall i, p | 0 <= i < |c.sharedRegionComparisons| && p in c.sharedRegionComparisons[i].gadgetDisplacements
      ensures 0 in c.sharedRegionComparisons[i].gadgetDisplacements[p]
    {
      var cmp := c.sharedRegionComparisons[i];
      var r := t[sharedNames[i]];
      var d := cmp.gadgetDisplacements[p];
      var sig :| WrittenFor(d, r, r, p, sig);
      var j :| 0 <= j < |r.gadgets[sig]| && r.gadgets[sig][j] == p;
      ZeroDisplacement(p, p);
      assert d[j] == 0;
    }
  }
}
