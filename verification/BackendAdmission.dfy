/**
 The backend's own limit on scans per scanner node, kept in a map that holds busy nodes only.
 */
module BackendAdmission {
  import opened Wrappers
  import Limits = ScannerParts

  datatype Error = InvalidConfiguration | CapacityExhausted

  class ScanAdmission {
    var active: map<string, nat>
    /** The slots handed out and not yet given back, by node. */
    ghost var held: multiset<string>

    ghost predicate Valid()
      reads this
    {
      && (forall node :: node in active <==> node in held)
      && (forall node :: node in active ==> active[node] == held[node])
    }

    constructor ()
      ensures Valid() && held == multiset{}
    {
      active, held := map[], multiset{};
    }

    /** One slot more for the node, or an error and no change; the limit may differ from call to call. */
    method Acquire(node: string, limit: int) returns (error: Option<Error>)
      requires Valid()
      modifies this
      ensures Valid()
      ensures held == if error.None? then old(held) + multiset{node} else old(held)
      ensures error == Some(InvalidConfiguration) <==> node == "" || limit > 100
      ensures error == Some(CapacityExhausted) <==>
              node != "" && limit <= 100 && old(held)[node] >= (if limit <= 0 then 20 else limit)
      ensures error.None? ==> 1 <= held[node] <= (if limit <= 0 then 20 else limit) <= 100
    {
      var effective := if limit <= 0 then Limits.DEFAULT_MAX_CONCURRENT_SCANS else limit;
      if node == "" || effective > Limits.MAX_CONCURRENT_SCANS_CEILING {
        return Some(InvalidConfiguration);
      }
      var count := if node in active then active[node] else 0;
      if count >= effective {
        return Some(CapacityExhausted);
      }
      active := active[node := count + 1];
      held := held + multiset{node};
      return None;
    }

    /** One slot less; giving back what is not held changes nothing. */
    method Release(node: string)
      requires Valid()
      modifies this
      ensures Valid() && held == old(held) - multiset{node}
    {
      var count := if node in active then active[node] else 0;
      held := held - multiset{node};
      if count <= 1 {
        active := active - {node};
        return;
      }
      active := active[node := count - 1];
    }
  }
}
