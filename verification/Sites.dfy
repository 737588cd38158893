/** `groupBySite`: sectors grouped by site through a Map index (frontend/src/api/rfSimulation.ts). */
module Sites {
  import opened Prelude

  /** A sector on the map; only the fields that grouping reads. */
  datatype Radio = Radio(id: string, siteId: string, siteName: string)
  datatype Site = Site(siteId: string, siteName: string, sectors: seq<Radio>)

  // ----- the simple form: one filter per site -----

  function InSite(siteId: string): Radio -> bool {
    (r: Radio) => r.siteId == siteId
  }

  function SectorsOf(radios: seq<Radio>, siteId: string): seq<Radio> {
    Filter(radios, InSite(siteId))
  }

  /** Site ids in the order in which they first occur. */
  function SiteIds(radios: seq<Radio>): seq<string> {
    if radios == [] then []
    else
      var before, last := SiteIds(radios[..|radios| - 1]), radios[|radios| - 1].siteId;
      if last in before then before else before + [last]
  }

  function SiteOf(radios: seq<Radio>, siteId: string): Site {
    var sectors := SectorsOf(radios, siteId);
    Site(siteId, if sectors == [] then "" else sectors[0].siteName, sectors)
  }

  function Groups(radios: seq<Radio>): (sites: seq<Site>)
    ensures |sites| == |SiteIds(radios)|
    ensures forall k :: 0 <= k < |sites| ==> sites[k] == SiteOf(radios, SiteIds(radios)[k])
  {
    seq(|SiteIds(radios)|, k requires 0 <= k < |SiteIds(radios)| => SiteOf(radios, SiteIds(radios)[k]))
  }

  // ----- laws of the simple form -----

  ghost predicate Occurs(radios: seq<Radio>, siteId: string) {
    SectorsOf(radios, siteId) != []
  }

  lemma SectorsStep(init: seq<Radio>, r: Radio, siteId: string)
    ensures SectorsOf(init + [r], siteId) == SectorsOf(init, siteId) + if r.siteId == siteId then [r] else []
  {
    FilterAppend(init, [r], InSite(siteId));
    assert [r][1..] == [];
  }

  /** The ids listed are distinct and are exactly those that occur. */
  lemma {:induction false} SiteIdsMeaning(radios: seq<Radio>)
    ensures var ids := SiteIds(radios);
            && (forall a, b :: 0 <= a < b < |ids| ==> ids[a] != ids[b])
            && (forall id :: id in ids <==> Occurs(radios, id))
  {
    if radios != [] {
      var init, r := radios[..|radios| - 1], radios[|radios| - 1];
      SiteIdsMeaning(init);
      assert radios == init + [r];
      forall id ensures id in SiteIds(radios) <==> Occurs(radios, id) {
        SectorsStep(init, r, id);
        assert Occurs(radios, id) <==> Occurs(init, id) || r.siteId == id;
        assert id in SiteIds(init) <==> Occurs(init, id);
        assert SiteIds(radios) == if r.siteId in SiteIds(init) then SiteIds(init) else SiteIds(init) + [r.siteId];
      }
    } else {
      assert forall id :: SectorsOf(radios, id) == [];
    }
  }

  /** First-occurrence order: what any first part of the input lists comes first. */
  lemma {:induction false} SiteIdsGrowAtTheEnd(radios: seq<Radio>, n: nat)
    requires n <= |radios|
    ensures SiteIds(radios[..n]) <= SiteIds(radios)
    decreases |radios|
  {
    if n == |radios| {
      assert radios[..n] == radios;
    } else {
      var init := radios[..|radios| - 1];
      SiteIdsGrowAtTheEnd(init, n);
      assert init[..n] == radios[..n];
    }
  }

  function SectorCount(sites: seq<Site>): nat {
    if sites == [] then 0 else |sites[0].sectors| + SectorCount(sites[1..])
  }

  lemma SiteIdsStep(radios: seq<Radio>, r: Radio)
    ensures SiteIds(radios + [r]) ==
            if r.siteId in SiteIds(radios) then SiteIds(radios) else SiteIds(radios) + [r.siteId]
  {
    var more := radios + [r];
    assert more[..|more| - 1] == radios && more[|more| - 1] == r;
  }

  lemma SiteOfStep(radios: seq<Radio>, r: Radio, id: string)
    requires Occurs(radios, id)
    ensures var site := SiteOf(radios, id);
            SiteOf(radios + [r], id) == if id == r.siteId then site.(sectors := site.sectors + [r]) else site
  {
    SectorsStep(radios, r, id);
  }

  /** A sector of a site already listed joins that site and leaves the others alone. */
  lemma JoiningStep(radios: seq<Radio>, r: Radio, at: nat)
    requires at < |SiteIds(radios)| && SiteIds(radios)[at] == r.siteId
    ensures var sites := Groups(radios);
            Groups(radios + [r]) == sites[at := sites[at].(sectors := sites[at].sectors + [r])]
  {
    SiteIdsMeaning(radios);
    SiteIdsStep(radios, r);
    var sites, all := Groups(radios), Groups(radios + [r]);
    forall k | 0 <= k < |all| ensures all[k] == sites[at := sites[at].(sectors := sites[at].sectors + [r])][k] {
      SiteOfStep(radios, r, SiteIds(radios)[k]);
    }
  }

  lemma NewSite(radios: seq<Radio>, r: Radio)
    requires !Occurs(radios, r.siteId)
    ensures SiteOf(radios + [r], r.siteId) == Site(r.siteId, r.siteName, [r])
  {
    SectorsStep(radios, r, r.siteId);
  }

  /** The first sector of a site opens a new last group. */
  lemma OpeningStep(radios: seq<Radio>, r: Radio)
    requires r.siteId !in SiteIds(radios)
    ensures Groups(radios + [r]) == Groups(radios) + [Site(r.siteId, r.siteName, [r])]
  {
    SiteIdsMeaning(radios);
    SiteIdsStep(radios, r);
    NewSite(radios, r);
    var sites, all := Groups(radios), Groups(radios + [r]);
    forall k | 0 <= k < |sites| ensures all[k] == sites[k] {
      SiteOfStep(radios, r, SiteIds(radios)[k]);
    }
  }

  /** Every sector lands in exactly one group: the counts add up to the input. */
  lemma {:induction false} SectorsAreConserved(radios: seq<Radio>)
    ensures SectorCount(Groups(radios)) == |radios|
  {
    if radios != [] {
      var init, r := radios[..|radios| - 1], radios[|radios| - 1];
      SectorsAreConserved(init);
      assert radios == init + [r];
      var sites := Groups(init);
      if r.siteId in SiteIds(init) {
        var at :| 0 <= at < |SiteIds(init)| && SiteIds(init)[at] == r.siteId;
        JoiningStep(init, r, at);
        CountAfterUpdate(sites, at, sites[at].(sectors := sites[at].sectors + [r]));
      } else {
        OpeningStep(init, r);
        CountAppend(sites, Site(r.siteId, r.siteName, [r]));
      }
    }
  }

  lemma {:induction false} CountAfterUpdate(sites: seq<Site>, at: nat, site: Site)
    requires at < |sites|
    ensures SectorCount(sites[at := site]) == SectorCount(sites) - |sites[at].sectors| + |site.sectors|
  {
    if at == 0 {
      assert sites[at := site][1..] == sites[1..];
    } else {
      CountAfterUpdate(sites[1..], at - 1, site);
      assert sites[at := site][1..] == sites[1..][at - 1 := site];
    }
  }

  lemma {:induction false} CountAppend(sites: seq<Site>, site: Site)
    ensures SectorCount(sites + [site]) == SectorCount(sites) + |site.sectors|
  {
    if sites == [] {
      assert [site][1..] == [] && sites + [site] == [site];
    } else {
      CountAppend(sites[1..], site);
      assert (sites + [site])[1..] == sites[1..] + [site];
    }
  }

  /** A group holds every sector of its site, in input order, under the name its first sector gives. */
  lemma GroupsMeaning(radios: seq<Radio>, k: nat)
    requires k < |Groups(radios)|
    ensures var site := Groups(radios)[k];
            && site.sectors != [] && site.siteName == site.sectors[0].siteName
            && site.sectors == Filter(radios, (r: Radio) => r.siteId == site.siteId)
            && (forall r :: r in site.sectors <==> r in radios && r.siteId == site.siteId)
  {
    SiteIdsMeaning(radios);
    var id := SiteIds(radios)[k];
    assert Occurs(radios, id);
    SameFilter(radios, InSite(id), (r: Radio) => r.siteId == Groups(radios)[k].siteId);
  }

  lemma {:induction false} SameFilter(radios: seq<Radio>, f: Radio -> bool, g: Radio -> bool)
    requires forall r :: f(r) == g(r)
    ensures Filter(radios, f) == Filter(radios, g)
  {
    if radios != [] { SameFilter(radios[1..], f, g); }
  }

  // ----- the loop with its index -----

  ghost predicate IndexFits(index: map<string, nat>, ids: seq<string>, id: string) {
    && (id in ids <==> id in index)
    && (id in index ==> index[id] < |ids| && ids[index[id]] == id)
  }

  /** The Map holds, for every id seen, where its group stands. */
  ghost predicate Indexes(index: map<string, nat>, ids: seq<string>) {
    forall id :: IndexFits(index, ids, id)
  }

  lemma IndexOneMore(index: map<string, nat>, ids: seq<string>, id: string)
    requires Indexes(index, ids) && id !in index
    ensures Indexes(index[id := |ids|], ids + [id])
  {
    var index', ids' := index[id := |ids|], ids + [id];
    forall other ensures IndexFits(index', ids', other) {
      assert IndexFits(index, ids, other);
    }
  }

  /** What the loop does with sector `i`, seen from the reference form. */
  lemma JoinAt(radios: seq<Radio>, i: nat, index: map<string, nat>)
    requires i < |radios| && Indexes(index, SiteIds(radios[..i])) && radios[i].siteId in index
    ensures var sites, at := Groups(radios[..i]), index[radios[i].siteId];
            && at < |sites|
            && Groups(radios[..i + 1]) == sites[at := sites[at].(sectors := sites[at].sectors + [radios[i]])]
    ensures Indexes(index, SiteIds(radios[..i + 1]))
  {
    assert radios[..i + 1] == radios[..i] + [radios[i]];
    assert IndexFits(index, SiteIds(radios[..i]), radios[i].siteId);
    SiteIdsStep(radios[..i], radios[i]);
    JoiningStep(radios[..i], radios[i], index[radios[i].siteId]);
  }

  lemma OpenAt(radios: seq<Radio>, i: nat, index: map<string, nat>)
    requires i < |radios| && Indexes(index, SiteIds(radios[..i])) && radios[i].siteId !in index
    ensures var sites, r := Groups(radios[..i]), radios[i];
            && Groups(radios[..i + 1]) == sites + [Site(r.siteId, r.siteName, [r])]
            && Indexes(index[r.siteId := |sites|], SiteIds(radios[..i + 1]))
  {
    assert radios[..i + 1] == radios[..i] + [radios[i]];
    assert IndexFits(index, SiteIds(radios[..i]), radios[i].siteId);
    SiteIdsStep(radios[..i], radios[i]);
    OpeningStep(radios[..i], radios[i]);
    IndexOneMore(index, SiteIds(radios[..i]), radios[i].siteId);
  }

  /** One pass with an index does what one filter per site does. */
  method GroupBySite(radios: seq<Radio>) returns (sites: seq<Site>)
    ensures sites == Groups(radios)
  {
    sites := [];
    var index: map<string, nat> := map[];
    var i := 0;
    while i < |radios|
      invariant 0 <= i <= |radios|
      invariant sites == Groups(radios[..i])
      invariant Indexes(index, SiteIds(radios[..i]))
    {
      var radio := radios[i];
      if radio.siteId in index {
        JoinAt(radios, i, index);
        var existing := index[radio.siteId];
        sites := sites[existing := sites[existing].(sectors := sites[existing].sectors + [radio])];
      } else {
        OpenAt(radios, i, index);
        index := index[radio.siteId := |sites|];
        sites := sites + [Site(radio.siteId, radio.siteName, [radio])];
      }
      i := i + 1;
    }
    assert radios[..i] == radios;
  }
}
