/** The fixed package catalog (constants.ts) and the lookup `PACKAGES.find(p => p.id === tier)`. */
module Catalog {
  import opened Types

  /** The catalog, in display order. */
  const Packages: seq<PackageOption> := [
    PackageOption(Basic, "Basic", "$10", 1, "1 AI-generated marketing image."),
    PackageOption(Pro, "Pro", "$25", 3, "3 variations with different layouts & colors."),
    PackageOption(Premium, "Premium", "$50", 5, "5+ fully customized images for social & print.")
  ]

  /** `Array.prototype.find` by id: the first entry whose id is `tier`, if any. */
  function Find(packages: seq<PackageOption>, tier: PackageTier): (r: Option<PackageOption>)
    ensures r.Some? <==> exists k :: 0 <= k < |packages| && packages[k].id == tier
    ensures r.Some? ==>
              && r.value.id == tier
              && exists k :: 0 <= k < |packages| && packages[k] == r.value &&
                   forall j :: 0 <= j < k ==> packages[j].id != tier
  {
    if packages == [] then None
    else if packages[0].id == tier then Some(packages[0])
    else
      var r := Find(packages[1..], tier);
      assert forall k :: 1 <= k < |packages| ==> packages[k] == packages[1..][k - 1];
      r
  }

  /** The catalog has three entries, Basic, Pro and Premium in that order, with
      distinct ids, and every entry grants at least one image. */
  lemma CatalogShape()
    ensures |Packages| == 3
    ensures Packages[0].id == Basic && Packages[1].id == Pro && Packages[2].id == Premium
    ensures forall i, j :: 0 <= i < j < |Packages| ==> Packages[i].id != Packages[j].id
    ensures forall i :: 0 <= i < |Packages| ==> Packages[i].imageCount >= 1
  {
  }

  /** Lookup by any tier succeeds, yields the entry with that id, and that entry
      grants at least one image. */
  lemma {:induction false} FindIsTotal(tier: PackageTier)
    ensures Find(Packages, tier).Some?
    ensures Find(Packages, tier).value.id == tier
    ensures Find(Packages, tier).value.imageCount >= 1
  {
    var k := match tier case Basic => 0 case Pro => 1 case Premium => 2;
    assert Packages[k].id == tier;
  }

  /** Price and image count per tier. The Premium description says "5+",
      but the count is 5. */
  lemma {:induction false} TierTerms(tier: PackageTier)
    ensures Find(Packages, tier).Some?
    ensures tier == Basic ==> Find(Packages, tier).value.imageCount == 1 && Find(Packages, tier).value.price == "$10"
    ensures tier == Pro ==> Find(Packages, tier).value.imageCount == 3 && Find(Packages, tier).value.price == "$25"
    ensures tier == Premium ==> Find(Packages, tier).value.imageCount == 5 && Find(Packages, tier).value.price == "$50"
  {
    FindIsTotal(tier);
    var e := Find(Packages, tier).value;
    CatalogShape();
    assert e == Packages[0] || e == Packages[1] || e == Packages[2];
  }
}
