/** The observed state: what one poll of the hypervisor reports. */
module Truths {
  import opened Wrappers
  import opened Ordering
  import opened Events

  datatype DomainState = Running | Transient | Absent

  datatype TruthEntry = TruthEntry(
    domainId: string,
    manifestId: Option<string>,
    state: DomainState,
    memoryMb: Word,
    vcpus: nat)

  type Domains = map<string, TruthEntry>

  /** The domains that report a manifest id. */
  function Tagged(domains: Domains, m: string): set<string> {
    set d | d in domains && domains[d].manifestId == Some(m)
  }

  /** The first domain, in id order, that reports a manifest id. */
  function FirstTagged(domains: Domains, m: string): Option<TruthEntry> {
    if Tagged(domains, m) == {} then None else Some(domains[Least(Tagged(domains, m))])
  }

  /** Every domain is filed under its own id. */
  predicate Filed(domains: Domains) {
    forall d | d in domains :: domains[d].domainId == d
  }

  class Truth {
    var domains: Domains

    constructor ()
      ensures domains == map[]
    {
      domains := map[];
    }

    method Insert(e: TruthEntry)
      modifies this
      ensures domains == old(domains)[e.domainId := e]
      ensures old(Filed(domains)) ==> Filed(domains)
    {
      domains := domains[e.domainId := e];
    }

    /** The scan in id order stops at the least id that reports the manifest. */
    method FindByManifest(m: string) returns (r: Option<TruthEntry>)
      ensures r == FirstTagged(domains, m)
    {
      var ids := InOrder(domains.Keys);
      InOrderAscending(domains.Keys);
      for i := 0 to |ids|
        invariant forall k :: 0 <= k < i ==> ids[k] !in Tagged(domains, m)
      {
        assert ids[i] in ids;
        if domains[ids[i]].manifestId == Some(m) {
          assert IsLeast(ids[i], Tagged(domains, m)) by {
            forall d | d in Tagged(domains, m) ensures d == ids[i] || Below(ids[i], d) {
              assert d in ids;
            }
          }
          LeastUnique(Tagged(domains, m));
          return Some(domains[ids[i]]);
        }
      }
      assert Tagged(domains, m) == {} by {
        forall d | d in domains ensures d !in Tagged(domains, m) {
          assert d in ids;
        }
      }
      r := None;
    }
  }
}
