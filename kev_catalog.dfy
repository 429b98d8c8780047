/** The KEV catalog as the feed's JSON decodes into it (`kev/catalog.go`),
    and the list of its CVE identifiers. */
module KevCatalog {

  /** One entry of the catalog; of its fields only the CVE identifier is used. */
  datatype Vulnerability = Vulnerability(cveID: string)

  datatype Catalog = Catalog(
    title: string,
    catalogVersion: string,
    dateReleased: string,
    count: int,
    vulnerabilities: seq<Vulnerability>)

  /** The CVE identifiers of `vs`, entry by entry. */
  function CveIDs(vs: seq<Vulnerability>): (ids: seq<string>)
    ensures |ids| == |vs|
    ensures forall i :: 0 <= i < |vs| ==> ids[i] == vs[i].cveID
  {
    if vs == [] then [] else [vs[0].cveID] + CveIDs(vs[1..])
  }

  /** Listing a concatenation lists each part in turn. */
  lemma {:induction false} CveIDsAppend(a: seq<Vulnerability>, b: seq<Vulnerability>)
    ensures CveIDs(a + b) == CveIDs(a) + CveIDs(b)
  {
    if a == [] {
      assert a + b == b;
    } else {
      assert (a + b)[1..] == a[1..] + b;
      CveIDsAppend(a[1..], b);
    }
  }

  /** How many entries of `vs` carry `id`. */
  function Carrying(vs: seq<Vulnerability>, id: string): nat {
    if vs == [] then 0 else (if vs[0].cveID == id then 1 else 0) + Carrying(vs[1..], id)
  }

  /** Entries that share an identifier each keep their own copy: an identifier
      occurs in the list as often as entries carry it. */
  lemma {:induction false} CveIDsKeepDuplicates(vs: seq<Vulnerability>, id: string)
    ensures multiset(CveIDs(vs))[id] == Carrying(vs, id)
  {
    if vs != [] {
      CveIDsKeepDuplicates(vs[1..], id);
      assert CveIDs(vs) == [vs[0].cveID] + CveIDs(vs[1..]);
      assert multiset(CveIDs(vs)) == multiset{vs[0].cveID} + multiset(CveIDs(vs[1..]));
    }
  }

  /** `Catalog.VulnerabilitiyIDs`: the identifiers in catalog order, one per
      entry, duplicates included. */
  method VulnerabilityIDs(c: Catalog) returns (ids: seq<string>)
    ensures ids == CveIDs(c.vulnerabilities)
  {
    ids := [];
    var i := 0;
    while i < |c.vulnerabilities|
      invariant 0 <= i <= |c.vulnerabilities|
      invariant ids == CveIDs(c.vulnerabilities[..i])
    {
      CveIDsAppend(c.vulnerabilities[..i], [c.vulnerabilities[i]]);
      assert c.vulnerabilities[..i + 1] == c.vulnerabilities[..i] + [c.vulnerabilities[i]];
      ids := ids + [c.vulnerabilities[i].cveID];
      i := i + 1;
    }
    assert c.vulnerabilities[..i] == c.vulnerabilities;
  }
}
