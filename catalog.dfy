/**
  The service catalog returned by the identity service, and what
  `objectStoreService` selects from it. The method itself, which scans the
  catalog with two nested loops and overwrites the adapter's endpoint
  fields, is `RackspaceAdapter.ObjectStoreService`; this module gives the
  functions that state its result and proves that they pick the last
  matching endpoint in scan order.
 */
module Catalog {
  import opened PhpStrings

  datatype Endpoint = Endpoint(region: PhpString, publicURL: PhpString)
  datatype Service = Service(name: PhpString, endpoints: seq<Endpoint>)

  /** The catalog name of the CDN service the adapter looks for. */
  const CdnServiceName: PhpString := "cloudFilesCDN"

  /** The public URLs of the endpoints in `region`, in scan order. */
  function RegionUrls(endpoints: seq<Endpoint>, region: PhpString): seq<PhpString>
    decreases |endpoints|
  {
    if |endpoints| == 0 then []
    else
      var last := endpoints[|endpoints| - 1];
      RegionUrls(endpoints[..|endpoints| - 1], region) + (if last.region == region then [last.publicURL] else [])
  }

  /**
    The public URLs of the endpoints in `region` of every service called
    `name`, in the order of the nested scan.
   */
  function Matching(catalog: seq<Service>, name: PhpString, region: PhpString): seq<PhpString>
    decreases |catalog|
  {
    if |catalog| == 0 then []
    else
      var last := catalog[|catalog| - 1];
      Matching(catalog[..|catalog| - 1], name, region) + (if last.name == name then RegionUrls(last.endpoints, region) else [])
  }

  /**
    The URLs the CDN branch assigns: that branch is an `elseif` after the
    branch for the requested service, so it never runs when the requested
    service is itself the CDN service.
   */
  function CdnMatching(catalog: seq<Service>, storeName: PhpString, region: PhpString): seq<PhpString> {
    if storeName == CdnServiceName then [] else Matching(catalog, CdnServiceName, region)
  }

  /** A field overwritten once per URL in `urls` ends with the last one. */
  function LastOr(previous: Option<PhpString>, urls: seq<PhpString>): Option<PhpString> {
    if |urls| == 0 then previous else Some(urls[|urls| - 1])
  }

  /** Endpoint `j` of service `i` is in `region` of a service called `name`. */
  predicate IsMatch(catalog: seq<Service>, name: PhpString, region: PhpString, i: int, j: int) {
    && 0 <= i < |catalog| && catalog[i].name == name
    && 0 <= j < |catalog[i].endpoints| && catalog[i].endpoints[j].region == region
  }

  /** Position (i', j') does not come after (i, j) in the nested scan. */
  predicate NotAfter(i': int, j': int, i: int, j: int) {
    i' < i || (i' == i && j' <= j)
  }

  lemma LastOrAppend(previous: Option<PhpString>, a: seq<PhpString>, b: seq<PhpString>)
    ensures LastOr(previous, a + b) == LastOr(LastOr(previous, a), b)
  {
  }

  /** One more endpoint scanned: its URL is appended when it is in the region. */
  lemma RegionUrlsStep(endpoints: seq<Endpoint>, j: int, region: PhpString)
    requires 0 <= j < |endpoints|
    ensures RegionUrls(endpoints[..j + 1], region) ==
      RegionUrls(endpoints[..j], region) + (if endpoints[j].region == region then [endpoints[j].publicURL] else [])
  {
    assert endpoints[..j + 1][..j] == endpoints[..j];
  }

  /** One more service scanned: its URLs in the region are appended when it has the name. */
  lemma MatchingStep(catalog: seq<Service>, i: int, name: PhpString, region: PhpString)
    requires 0 <= i < |catalog|
    ensures Matching(catalog[..i + 1], name, region) ==
      Matching(catalog[..i], name, region) + (if catalog[i].name == name then RegionUrls(catalog[i].endpoints, region) else [])
  {
    assert catalog[..i + 1][..i] == catalog[..i];
  }

  lemma {:induction false} RegionUrlsEmpty(endpoints: seq<Endpoint>, region: PhpString)
    ensures RegionUrls(endpoints, region) == [] <==>
      forall j :: 0 <= j < |endpoints| ==> endpoints[j].region != region
    decreases |endpoints|
  {
    if |endpoints| > 0 {
      var init := endpoints[..|endpoints| - 1];
      RegionUrlsEmpty(init, region);
      assert forall j :: 0 <= j < |init| ==> init[j] == endpoints[j];
    }
  }

  /** The last URL of `RegionUrls` is that of the last endpoint in the region. */
  lemma {:induction false} RegionUrlsLast(endpoints: seq<Endpoint>, region: PhpString) returns (j: nat)
    requires RegionUrls(endpoints, region) != []
    ensures j < |endpoints| && endpoints[j].region == region
    ensures RegionUrls(endpoints, region)[|RegionUrls(endpoints, region)| - 1] == endpoints[j].publicURL
    ensures forall j' :: j < j' < |endpoints| ==> endpoints[j'].region != region
    decreases |endpoints|
  {
    var n := |endpoints|;
    var init := endpoints[..n - 1];
    if endpoints[n - 1].region == region {
      j := n - 1;
    } else {
      assert RegionUrls(endpoints, region) == RegionUrls(init, region);
      j := RegionUrlsLast(init, region);
      assert endpoints[j] == init[j];
    }
  }

  /** No URL is assigned exactly when no endpoint matches. */
  lemma {:induction false} NoMatch(catalog: seq<Service>, name: PhpString, region: PhpString)
    ensures Matching(catalog, name, region) == [] <==>
      forall i, j :: !IsMatch(catalog, name, region, i, j)
    decreases |catalog|
  {
    if |catalog| > 0 {
      var n := |catalog|;
      var init := catalog[..n - 1];
      var last := catalog[n - 1];
      NoMatch(init, name, region);
      RegionUrlsEmpty(last.endpoints, region);
      forall i, j | 0 <= i < n - 1
        ensures IsMatch(catalog, name, region, i, j) <==> IsMatch(init, name, region, i, j)
      {
        assert init[i] == catalog[i];
      }
      if Matching(catalog, name, region) != [] {
        if Matching(init, name, region) != [] {
          var i, j :| IsMatch(init, name, region, i, j);
          assert IsMatch(catalog, name, region, i, j);
        } else {
          var r := RegionUrls(last.endpoints, region);
          assert last.name == name && r != [];
          var j := RegionUrlsLast(last.endpoints, region);
          assert IsMatch(catalog, name, region, n - 1, j);
        }
      } else {
        forall i, j
          ensures !IsMatch(catalog, name, region, i, j)
        {
          if 0 <= i < n - 1 {
            assert !IsMatch(init, name, region, i, j);
          } else if i == n - 1 && last.name == name && 0 <= j < |last.endpoints| {
            assert last.endpoints[j].region != region;
          }
        }
      }
    }
  }

  /**
    When some endpoint matches, the last URL assigned is the public URL of
    the match that comes last in the nested scan (service by service, then
    endpoint by endpoint).
   */
  lemma {:induction false} LastMatch(catalog: seq<Service>, name: PhpString, region: PhpString) returns (i: nat, j: nat)
    requires Matching(catalog, name, region) != []
    ensures IsMatch(catalog, name, region, i, j)
    ensures var urls := Matching(catalog, name, region); urls[|urls| - 1] == catalog[i].endpoints[j].publicURL
    ensures forall i', j' :: IsMatch(catalog, name, region, i', j') ==> NotAfter(i', j', i, j)
    decreases |catalog|
  {
    var n := |catalog|;
    var init := catalog[..n - 1];
    var last := catalog[n - 1];
    forall i', j' | 0 <= i' < n - 1
      ensures IsMatch(catalog, name, region, i', j') <==> IsMatch(init, name, region, i', j')
    {
      assert init[i'] == catalog[i'];
    }
    if last.name == name && RegionUrls(last.endpoints, region) != [] {
      i := n - 1;
      j := RegionUrlsLast(last.endpoints, region);
    } else {
      assert Matching(catalog, name, region) == Matching(init, name, region);
      i, j := LastMatch(init, name, region);
      assert catalog[i] == init[i];
      if last.name == name {
        RegionUrlsEmpty(last.endpoints, region);
      }
    }
  }

  /**
    The endpoint field after a scan: the URL of the last match in scan
    order, or the previous value when nothing matches. Two catalog entries
    for the same service and region therefore resolve to the later one.
   */
  lemma ResolvedIsLastMatch(previous: Option<PhpString>, catalog: seq<Service>, name: PhpString, region: PhpString)
    ensures (forall i, j :: !IsMatch(catalog, name, region, i, j)) ==>
      LastOr(previous, Matching(catalog, name, region)) == previous
    ensures forall i, j ::
      IsMatch(catalog, name, region, i, j)
      && (forall i', j' :: IsMatch(catalog, name, region, i', j') ==> NotAfter(i', j', i, j))
      ==> LastOr(previous, Matching(catalog, name, region)) == Some(catalog[i].endpoints[j].publicURL)
  {
    NoMatch(catalog, name, region);
    if Matching(catalog, name, region) != [] {
      var i, j := LastMatch(catalog, name, region);
      forall i2, j2 |
        && IsMatch(catalog, name, region, i2, j2)
        && (forall i', j' :: IsMatch(catalog, name, region, i', j') ==> NotAfter(i', j', i2, j2))
        ensures i2 == i && j2 == j
      {
        assert NotAfter(i, j, i2, j2);
        assert NotAfter(i2, j2, i, j);
      }
    }
  }

  /** Two entries for the same service and region: the later one wins. */
  lemma DuplicateEntriesLaterWins()
    ensures var catalog := [
        Service("cloudFiles", [Endpoint("DFW", "https://first")]),
        Service("cloudFiles", [Endpoint("DFW", "https://second")])];
      LastOr(None, Matching(catalog, "cloudFiles", "DFW")) == Some("https://second")
  {
    var catalog := [
        Service("cloudFiles", [Endpoint("DFW", "https://first")]),
        Service("cloudFiles", [Endpoint("DFW", "https://second")])];
    assert catalog[..1][..0] == [];
    assert Matching(catalog[..1], "cloudFiles", "DFW") == ["https://first"] by {
      assert catalog[..1][0].endpoints[..0] == [];
    }
    assert catalog[1].endpoints[..0] == [];
    assert RegionUrls(catalog[1].endpoints, "DFW") == ["https://second"];
  }
}
