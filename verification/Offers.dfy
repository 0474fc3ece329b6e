/** What the offered regions make of an address, when the table holds them all (src/mm/region.rs, add_region). */
module OfferModel {
  import opened Machine
  import opened Wrappers
  import opened RegionModel

  /** The table holds every non-empty offer exactly when there are no more than 128. */
  lemma {:induction false} TableIsComplete(offers: seq<Offer>)
    ensures AddedAll([], offers) == NonEmpty(offers) <==> |NonEmpty(offers)| <= MAX_REGIONS
  {
    TableHoldsOffers(offers);
    var all := NonEmpty(offers);
    assert all[..|all|] == all;
  }

  lemma {:induction false} NonEmptyIsShort(offers: seq<Offer>)
    ensures |NonEmpty(offers)| <= |offers|
  {
    if offers != [] {
      NonEmptyIsShort(offers[..|offers| - 1]);
    }
  }

  lemma {:induction false} NonEmptyContains(offers: seq<Offer>, k: nat) returns (i: nat)
    requires k < |offers| && offers[k].size > 0
    ensures i < |NonEmpty(offers)| && NonEmpty(offers)[i] == Stored(offers[k])
  {
    var n := |offers| - 1;
    if k < n {
      i := NonEmptyContains(offers[..n], k);
    } else {
      i := |NonEmpty(offers)| - 1;
    }
  }

  lemma {:induction false} RegionOfOffer(offers: seq<Offer>, k: nat) returns (i: nat)
    requires |NonEmpty(offers)| <= MAX_REGIONS && k < |offers| && offers[k].size > 0
    ensures i < |AddedAll([], offers)| && AddedAll([], offers)[i] == Stored(offers[k])
  {
    TableIsComplete(offers);
    i := NonEmptyContains(offers, k);
  }

  lemma {:induction false} OfferOfRegion(offers: seq<Offer>, i: nat) returns (k: nat)
    requires i < |AddedAll([], offers)|
    ensures k < |offers| && offers[k].size > 0 && AddedAll([], offers)[i] == Stored(offers[k])
  {
    var init := offers[..|offers| - 1];
    if i < |AddedAll([], init)| {
      k := OfferOfRegion(init, i);
    } else {
      k := |offers| - 1;
    }
  }

  predicate Offers(o: Offer, a: nat) { o.size > 0 && Covers(Stored(o), a) }

  /** The kind of an address is that of the highest-priority offer that holds it. */
  lemma {:induction false} KindOfOffers(offers: seq<Offer>, a: nat, k: nat)
    requires |NonEmpty(offers)| <= MAX_REGIONS && k < |offers| && Offers(offers[k], a)
    requires forall j :: 0 <= j < |offers| && Offers(offers[j], a) ==>
      Priority(offers[j].kind) <= Priority(offers[k].kind)
    ensures KindAt(AddedAll([], offers), a) == Some(offers[k].kind)
  {
    var raw := AddedAll([], offers);
    var i := RegionOfOffer(offers, k);
    assert Covers(raw[i], a);
    var r :| 0 <= r < |raw| && Covers(raw[r], a) && raw[r].kind == KindAt(raw, a).value;
    var j := OfferOfRegion(offers, r);
    assert Offers(offers[j], a);
  }

  /** An address of a kind lies in an offer of that kind, and in none of a higher one. */
  lemma {:induction false} OffersOfKind(offers: seq<Offer>, a: nat, kind: Kind) returns (k: nat)
    requires |NonEmpty(offers)| <= MAX_REGIONS && KindAt(AddedAll([], offers), a) == Some(kind)
    ensures k < |offers| && Offers(offers[k], a) && offers[k].kind == kind
    ensures forall j :: 0 <= j < |offers| && Offers(offers[j], a) ==> Priority(offers[j].kind) <= Priority(kind)
  {
    var raw := AddedAll([], offers);
    var r :| 0 <= r < |raw| && Covers(raw[r], a) && raw[r].kind == kind;
    k := OfferOfRegion(offers, r);
    forall j | 0 <= j < |offers| && Offers(offers[j], a)
      ensures Priority(offers[j].kind) <= Priority(kind)
    {
      var i := RegionOfOffer(offers, j);
      assert Covers(raw[i], a);
    }
  }

  /** The address was offered as usable RAM, and as nothing else. */
  ghost predicate PlainRam(offers: seq<Offer>, a: nat) {
    && (exists k :: 0 <= k < |offers| && Offers(offers[k], a))
    && (forall k :: 0 <= k < |offers| && Offers(offers[k], a) ==> offers[k].kind == UsableRam)
  }

  /** When nothing was dropped, the raw map calls an address usable exactly then. */
  lemma {:induction false} UsableIsPlainRam(offers: seq<Offer>, a: nat)
    requires |NonEmpty(offers)| <= MAX_REGIONS
    ensures KindAt(AddedAll([], offers), a) == Some(UsableRam) <==> PlainRam(offers, a)
  {
    if KindAt(AddedAll([], offers), a) == Some(UsableRam) {
      var k := OffersOfKind(offers, a, UsableRam);
    } else if PlainRam(offers, a) {
      var k :| 0 <= k < |offers| && Offers(offers[k], a);
      KindOfOffers(offers, a, k);
    }
  }

  ghost predicate OffersKind(offers: seq<Offer>, kind: Kind, a: nat) {
    exists k :: 0 <= k < |offers| && offers[k].kind == kind && Offers(offers[k], a)
  }

  lemma {:induction false} OffersKindConcat(xs: seq<Offer>, ys: seq<Offer>, kind: Kind, a: nat)
    ensures OffersKind(xs + ys, kind, a) <==> OffersKind(xs, kind, a) || OffersKind(ys, kind, a)
  {
    var all := xs + ys;
    if k :| 0 <= k < |xs| && xs[k].kind == kind && Offers(xs[k], a) {
      assert all[k] == xs[k];
    }
    if k :| 0 <= k < |ys| && ys[k].kind == kind && Offers(ys[k], a) {
      assert all[|xs| + k] == ys[k];
    }
  }

  /** What an address becomes that was offered as each of these. */
  function Strongest(kernel: bool, stack: bool, blob: bool, reserved: bool, mmio: bool, ram: bool): Option<Kind> {
    if kernel then Some(KernelImage)
    else if stack then Some(BootStack)
    else if blob then Some(BootInfo)
    else if reserved then Some(Reserved)
    else if mmio then Some(Mmio)
    else if ram then Some(UsableRam)
    else None
  }

  /** The kernel's image wins over its stack, that over the blob, that over reserved memory, MMIO and RAM. */
  lemma {:induction false} KindsInOrder(offers: seq<Offer>, a: nat)
    requires |NonEmpty(offers)| <= 128
    ensures KindAt(AddedAll([], offers), a) ==
      Strongest(OffersKind(offers, KernelImage, a), OffersKind(offers, BootStack, a), OffersKind(offers, BootInfo, a),
        OffersKind(offers, Reserved, a), OffersKind(offers, Mmio, a), OffersKind(offers, UsableRam, a))
  {
    var kind := KindAt(AddedAll([], offers), a);
    forall k | 0 <= k < |offers| && Offers(offers[k], a)
      ensures kind.Some?
    {
      OfferedHasKind(offers, k, a);
    }
    if kind.Some? {
      var k := OffersOfKind(offers, a, kind.value);
    }
  }

  lemma {:induction false} OfferedHasKind(offers: seq<Offer>, k: nat, a: nat)
    requires |NonEmpty(offers)| <= MAX_REGIONS && k < |offers| && Offers(offers[k], a)
    ensures KindAt(AddedAll([], offers), a).Some?
  {
    var i := RegionOfOffer(offers, k);
    assert Covers(AddedAll([], offers)[i], a);
  }

  /** A full table takes no more. */
  lemma {:induction false} FullTableDrops(raw: seq<Region>, offers: seq<Offer>)
    requires |raw| >= MAX_REGIONS
    ensures AddedAll(raw, offers) == raw
  {
    if offers != [] {
      FullTableDrops(raw, offers[..|offers| - 1]);
    }
  }
}
