/** `order by due time, age limit n` over a set of candidates. */
module DueSelection {

  datatype Turn = Turn(at: int, since: int)

  predicate NotAfter(a: Turn, b: Turn) { a.at < b.at || (a.at == b.at && a.since <= b.since) }

  ghost predicate Distinct<K>(s: seq<K>) { forall i, j :: 0 <= i < j < |s| ==> s[i] != s[j] }

  /** `chosen` is a first page of the candidates: in due order, nothing earlier left out, and full unless
      every candidate was taken. */
  ghost predicate EarliestFirst<K>(due: map<K, Turn>, limit: nat, chosen: seq<K>) {
    && Distinct(chosen)
    && (forall i :: 0 <= i < |chosen| ==> chosen[i] in due)
    && (forall i, j :: 0 <= i < j < |chosen| ==> NotAfter(due[chosen[i]], due[chosen[j]]))
    && (forall i, k :: 0 <= i < |chosen| && k in due && k !in chosen ==> NotAfter(due[chosen[i]], due[k]))
    && |chosen| == if |due| <= limit then |due| else limit
  }

  method Earliest<K(==)>(due: map<K, Turn>, among: set<K>) returns (best: K)
    requires among != {} && among <= due.Keys
    ensures best in among && forall k :: k in among ==> NotAfter(due[best], due[k])
  {
    best :| best in among;
    var rest := among - {best};
    while rest != {}
      invariant rest <= among && best in among && best !in rest
      invariant forall k :: k in among && k !in rest ==> NotAfter(due[best], due[k])
      decreases rest
    {
      var k :| k in rest;
      if !NotAfter(due[best], due[k]) {
        best := k;
      }
      rest := rest - {k};
    }
  }

  method TakeEarliest<K(==)>(due: map<K, Turn>, limit: nat) returns (chosen: seq<K>)
    ensures EarliestFirst(due, limit, chosen)
  {
    chosen := [];
    var left := due.Keys;
    while |chosen| < limit && left != {}
      invariant |chosen| <= limit && |left| + |chosen| == |due.Keys| && left <= due.Keys
      invariant forall i :: 0 <= i < |chosen| ==> chosen[i] in due && chosen[i] !in left
      invariant forall k :: k in due && k !in chosen ==> k in left
      invariant Distinct(chosen)
      invariant forall i, j :: 0 <= i < j < |chosen| ==> NotAfter(due[chosen[i]], due[chosen[j]])
      invariant forall i, k :: 0 <= i < |chosen| && k in left ==> NotAfter(due[chosen[i]], due[k])
      decreases limit - |chosen|
    {
      var best := Earliest(due, left);
      chosen := chosen + [best];
      left := left - {best};
    }
  }
}
