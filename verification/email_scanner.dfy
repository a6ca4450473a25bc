/** The hand-written scan for email addresses, against a recursive reading of the same text. */
module EmailScanner {
  import opened Texts

  const AT: Unit := 64
  const DOT: Unit := 46
  const HYPHEN: Unit := 45

  predicate IsLetter(u: Unit) { 65 <= u <= 90 || 97 <= u <= 122 }

  predicate IsLetterOrDigit(u: Unit) { 48 <= u <= 57 || IsLetter(u) }

  predicate IsLocal(u: Unit) { IsLetterOrDigit(u) || u == DOT || u == 95 || u == 37 || u == 43 || u == HYPHEN }

  predicate IsDomain(u: Unit) { IsLetterOrDigit(u) || u == DOT || u == HYPHEN }

  // ---------------------------------------------------------------- the recursive reading

  /** How many units from the front could belong to the part before the at sign. */
  function LocalRun(t: Text): (n: nat)
    ensures n <= |t| && (forall i :: 0 <= i < n ==> IsLocal(t[i])) && (n < |t| ==> !IsLocal(t[n]))
  {
    if t == [] || !IsLocal(t[0]) then 0 else 1 + LocalRun(t[1..])
  }

  function DomainRun(t: Text): (n: nat)
    ensures n <= |t| && (forall i :: 0 <= i < n ==> IsDomain(t[i])) && (n < |t| ==> !IsDomain(t[n]))
  {
    if t == [] || !IsDomain(t[0]) then 0 else 1 + DomainRun(t[1..])
  }

  datatype Candidate = Candidate(local: Text, domain: Text)

  predicate StartsCandidate(t: Text) { LocalRun(t) > 0 && LocalRun(t) < |t| && t[LocalRun(t)] == AT }

  function First(t: Text): Candidate
    requires StartsCandidate(t)
  {
    var n := LocalRun(t);
    Candidate(t[..n], t[n + 1..][..DomainRun(t[n + 1..])])
  }

  function AfterFirst(t: Text): (rest: Text)
    requires StartsCandidate(t)
    ensures |rest| < |t|
  {
    var n := LocalRun(t);
    t[n + 1..][DomainRun(t[n + 1..])..]
  }

  /** The leftmost, longest, non-overlapping candidates: what was read as a domain is not read again. */
  function Candidates(t: Text): seq<Candidate>
    decreases |t|
  {
    if t == [] then []
    else if LocalRun(t) == 0 then Candidates(t[1..])
    else if !StartsCandidate(t) then Candidates(t[LocalRun(t)..])
    else [First(t)] + Candidates(AfterFirst(t))
  }

  /** The domain without the dots and hyphens that end it. */
  function Trimmed(domain: Text): (r: Text)
    ensures r <= domain
    ensures r != [] ==> r[|r| - 1] != DOT && r[|r| - 1] != HYPHEN
    ensures forall i :: |r| <= i < |domain| ==> domain[i] == DOT || domain[i] == HYPHEN
  {
    if domain != [] && (domain[|domain| - 1] == DOT || domain[|domain| - 1] == HYPHEN)
    then Trimmed(domain[..|domain| - 1]) else domain
  }

  /** Something, a dot, and a top level of at least two letters. */
  ghost predicate ShapedAt(domain: Text, p: nat) {
    0 < p < |domain| && domain[p] == DOT && |domain| - p > 2
    && forall i :: p < i < |domain| ==> IsLetter(domain[i])
  }

  ghost predicate Shaped(domain: Text) { exists p :: ShapedAt(domain, p) }

  function Address(c: Candidate): Text { c.local + [AT] + Trimmed(c.domain) }

  ghost predicate Offends(c: Candidate, allowed: Text) {
    Shaped(Trimmed(c.domain)) && Lower(Address(c)) != Lower(allowed)
  }

  /** Some candidate is a well-shaped address other than the allowed one. */
  ghost predicate HasOther(t: Text, allowed: Text) { AnyOffends(Candidates(t), allowed) }

  ghost predicate AnyOffends(candidates: seq<Candidate>, allowed: Text) {
    exists c <- candidates :: Offends(c, allowed)
  }

  /** The characters of an address: letters, digits and . _ % + - before the at sign, letters, digits, . and - after. */
  lemma CharactersExactly(u: Unit)
    ensures IsLocal(u) <==>
              || 65 <= u <= 90 || 97 <= u <= 122 || 48 <= u <= 57
              || u == 46 || u == 95 || u == 37 || u == 43 || u == 45
    ensures IsDomain(u) <==> 65 <= u <= 90 || 97 <= u <= 122 || 48 <= u <= 57 || u == 46 || u == 45
    ensures !IsLocal(AT) && !IsDomain(AT)
  {}

  lemma {:induction false} NoAtNoCandidate(t: Text)
    requires AT !in t
    ensures Candidates(t) == []
    decreases |t|
  {
    if t != [] {
      var n := LocalRun(t);
      assert forall u <- t[1..] :: u in t;
      assert forall u <- t[n..] :: u in t;
      NoAtNoCandidate(if n == 0 then t[1..] else t[n..]);
    }
  }

  /** The first at sign stands at `i`, and the characters of an address go back from it as far as `left`. */
  ghost predicate FirstAt(t: Text, left: nat, i: nat) {
    && left <= i < |t| && t[i] == AT && (forall k :: 0 <= k < i ==> t[k] != AT)
    && (forall k :: left <= k < i ==> IsLocal(t[k])) && (left > 0 ==> !IsLocal(t[left - 1]))
  }

  /** How the first at sign decides, without following the scan: the address that it is part of reaches as far to the
      left and to the right as address characters go, and reading goes on behind it. */
  lemma {:induction false} FirstAtDecides(t: Text, left: nat, i: nat)
    requires FirstAt(t, left, i)
    ensures left <= i < |t| && Candidates(t) == ReadFrom(t, left, i)
    decreases |t|
  {
    hide Candidates, ReadFrom, FirstAt;
    if left == 0 {
      AtInFront(t, i);
    } else {
      var m := SkipsBefore(t, left, i);
      FirstAtLater(t, m, left, i);
      FirstAtDecides(t[m..], left - m, i - m);
    }
  }

  /** The address around the at sign at `i`, if there is one, and whatever is read behind it. */
  function ReadFrom(t: Text, left: nat, i: nat): seq<Candidate>
    requires left <= i < |t|
  {
    var rest := t[i + 1..];
    var n := DomainRun(rest);
    if left == i then Candidates(rest) else [Candidate(t[left..i], rest[..n])] + Candidates(rest[n..])
  }

  lemma FirstAtLater(t: Text, m: nat, left: nat, i: nat)
    requires FirstAt(t, left, i) && 1 <= m <= left
    ensures FirstAt(t[m..], left - m, i - m)
    ensures left <= i < |t| && ReadFrom(t[m..], left - m, i - m) == ReadFrom(t, left, i)
  {
    hide IsLocal, DomainRun, Candidates;
    assert t[m..][i - m + 1..] == t[i + 1..] && t[m..][left - m..i - m] == t[left..i];
  }

  lemma AtInFront(t: Text, i: nat)
    requires FirstAt(t, 0, i)
    ensures i < |t| && Candidates(t) == ReadFrom(t, 0, i)
  {
    LocalRunIs(t, i);
    hide LocalRun, DomainRun, IsLocal, IsDomain;
    if i > 0 {
      assert StartsCandidate(t);
      assert t[..i] == t[0..i];
      assert First(t) == Candidate(t[0..i], t[i + 1..][..DomainRun(t[i + 1..])]);
    }
  }

  lemma SkipsBefore(t: Text, left: nat, i: nat) returns (m: nat)
    requires FirstAt(t, left, i) && left > 0
    ensures 1 <= m <= left && Candidates(t) == Candidates(t[m..])
  {
    var n := LocalRun(t);
    assert n < left && t[n] != AT;
    hide IsLocal, IsDomain;
    m := if n == 0 then 1 else n;
  }

  /** Equal but for the case of ASCII letters. */
  ghost predicate SameButCase(a: Text, b: Text) {
    |a| == |b| && forall i :: 0 <= i < |a| ==>
      || a[i] == b[i] || (97 <= a[i] <= 122 && b[i] == a[i] - 32) || (97 <= b[i] <= 122 && a[i] == b[i] - 32)
  }

  lemma SameLowered(a: Text, b: Text)
    ensures Lower(a) == Lower(b) <==> SameButCase(a, b)
  {
    if SameButCase(a, b) {
      assert forall i :: 0 <= i < |a| ==> Lower(a)[i] == Lower(b)[i];
    } else if |a| == |b| {
      var i :| 0 <= i < |a| && !(a[i] == b[i] || (97 <= a[i] <= 122 && b[i] == a[i] - 32)
                                 || (97 <= b[i] <= 122 && a[i] == b[i] - 32));
      assert Lower(a)[i] != Lower(b)[i];
    } else {
      assert |Lower(a)| != |Lower(b)|;
    }
  }

  /** A domain ends in a dot and at least two letters, with something before the dot. */
  ghost predicate EndsInTopLevel(domain: Text) {
    exists p :: 1 <= p <= |domain| - 3 && domain[p] == 46
                && forall i :: p < i < |domain| ==> 65 <= domain[i] <= 90 || 97 <= domain[i] <= 122
  }

  lemma OffendsExactly(local: Text, domain: Text, allowed: Text)
    ensures Offends(Candidate(local, domain), allowed) <==>
            EndsInTopLevel(Trimmed(domain)) && !SameButCase(local + [64] + Trimmed(domain), allowed)
  {
    SameLowered(local + [64] + Trimmed(domain), allowed);
    hide Trimmed, SameButCase, Lower;
    var d := Trimmed(domain);
    assert Shaped(d) <==> EndsInTopLevel(d) by {
      if Shaped(d) {
        var p: nat :| ShapedAt(d, p);
        assert d[p] == 46;
      }
      if EndsInTopLevel(d) {
        var p :| 1 <= p <= |d| - 3 && d[p] == 46
                 && forall i :: p < i < |d| ==> 65 <= d[i] <= 90 || 97 <= d[i] <= 122;
        assert ShapedAt(d, p);
      }
    }
  }

  /** A text with one at sign is reported exactly when the address around it, without the dots and hyphens behind it,
      has something before the at sign, ends in a top level, and is not the allowed address, case aside. */
  lemma OneAtExactly(t: Text, left: nat, i: nat, right: nat, allowed: Text)
    requires FirstAt(t, left, i) && i < right <= |t| && AT !in t[i + 1..]
    requires (forall k :: i < k < right ==> IsDomain(t[k])) && (right < |t| ==> !IsDomain(t[right]))
    ensures left <= i < |t|
    ensures HasOther(t, allowed) <==>
              && left < i
              && var domain := Trimmed(t[i + 1..right]);
                 EndsInTopLevel(domain) && !SameButCase(t[left..i] + [64] + domain, allowed)
  {
    assert left <= i < |t|;
    hide IsLocal, IsDomain, LocalRun, StartsCandidate, First, AfterFirst, Candidates, FirstAt, HasOther, DomainRun;
    hide Offends, EndsInTopLevel, SameButCase, Trimmed;
    var rest := t[i + 1..];
    assert rest[..right - i - 1] == t[i + 1..right];
    DomainRunIs(rest, right - i - 1);
    FirstAtDecides(t, left, i);
    var behind := rest[right - i - 1..];
    assert forall u <- behind :: u in rest;
    NoAtNoCandidate(rest);
    NoAtNoCandidate(behind);
    OffendsExactly(t[left..i], t[i + 1..right], allowed);
    FewCandidates(t, Candidate(t[left..i], t[i + 1..right]), allowed);
  }

  lemma FewCandidates(t: Text, c: Candidate, allowed: Text)
    ensures Candidates(t) == [c] + [] ==> (HasOther(t, allowed) <==> Offends(c, allowed))
    ensures Candidates(t) == [] ==> !HasOther(t, allowed)
  {
    hide Candidates, Offends;
    assert [c] + [] == [c] && c in [c];
  }

  // ---------------------------------------------------------------- the scan

  lemma LocalRunIs(t: Text, n: nat)
    requires n <= |t| && (forall i :: 0 <= i < n ==> IsLocal(t[i])) && (n < |t| ==> !IsLocal(t[n]))
    ensures LocalRun(t) == n
  {}

  lemma DomainRunIs(t: Text, n: nat)
    requires n <= |t| && (forall i :: 0 <= i < n ==> IsDomain(t[i])) && (n < |t| ==> !IsDomain(t[n]))
    ensures DomainRun(t) == n
  {}

  lemma TrimmedIs(domain: Text, n: nat)
    requires n <= |domain| && forall i :: n <= i < |domain| ==> domain[i] == DOT || domain[i] == HYPHEN
    requires n > 0 ==> domain[n - 1] != DOT && domain[n - 1] != HYPHEN
    ensures Trimmed(domain) == domain[..n]
  {
    var r := Trimmed(domain);
    assert r == domain[..|r|];
    assert |r| > 0 ==> r[|r| - 1] == domain[|r| - 1];
  }

  method LocalEnd(content: Text, start: nat) returns (cursor: nat)
    requires start <= |content|
    ensures cursor == start + LocalRun(content[start..])
  {
    cursor := start;
    while cursor < |content| && IsLocal(content[cursor])
      invariant start <= cursor <= |content| && forall i :: start <= i < cursor ==> IsLocal(content[i])
    {
      cursor := cursor + 1;
    }
    LocalRunIs(content[start..], cursor - start);
  }

  method DomainEnd(content: Text, start: nat) returns (cursor: nat)
    requires start <= |content|
    ensures cursor == start + DomainRun(content[start..])
  {
    cursor := start;
    while cursor < |content| && IsDomain(content[cursor])
      invariant start <= cursor <= |content| && forall i :: start <= i < cursor ==> IsDomain(content[i])
    {
      cursor := cursor + 1;
    }
    DomainRunIs(content[start..], cursor - start);
  }

  method TrimEnd(content: Text, start: nat, end: nat) returns (domainEnd: nat, ghost steps: nat)
    requires start <= end <= |content|
    ensures start <= domainEnd <= end && content[start..domainEnd] == Trimmed(content[start..end])
    ensures steps == end - domainEnd
  {
    domainEnd, steps := end, 0;
    while domainEnd > start && (content[domainEnd - 1] == DOT || content[domainEnd - 1] == HYPHEN)
      invariant start <= domainEnd <= end && steps == end - domainEnd
      invariant forall i :: domainEnd <= i < end ==> content[i] == DOT || content[i] == HYPHEN
    {
      domainEnd, steps := domainEnd - 1, steps + 1;
    }
    TrimmedIs(content[start..end], domainEnd - start);
    assert content[start..end][..domainEnd - start] == content[start..domainEnd];
  }

  method AllAsciiLetters(value: Text, start: nat, end: nat) returns (all: bool, ghost steps: nat)
    requires start <= end <= |value|
    ensures all <==> forall i :: start <= i < end ==> IsLetter(value[i])
    ensures steps <= end - start
  {
    steps := 0;
    for index := start to end
      invariant forall i :: start <= i < index ==> IsLetter(value[i])
      invariant steps == index - start
    {
      steps := steps + 1;
      if !IsLetter(value[index]) {
        return false, steps;
      }
    }
    return true, steps;
  }

  /** Finds the last dot and checks what stands on either side of it. */
  method HasBoundedShape(content: Text, start: nat, end: nat) returns (shaped: bool, ghost steps: nat)
    requires start <= end <= |content|
    ensures shaped <==> Shaped(content[start..end])
    ensures steps <= 2 * (end - start)
  {
    ghost var domain := content[start..end];
    var lastDot: int := end - 1;
    steps := 0;
    while lastDot > start && content[lastDot] != DOT
      invariant start - 1 <= lastDot <= end - 1 && steps == end - 1 - lastDot
      invariant forall i :: lastDot < i < end && i > start ==> content[i] != DOT
    {
      lastDot, steps := lastDot - 1, steps + 1;
    }
    assert lastDot > start ==> domain[lastDot - start] == DOT;
    forall p | ShapedAt(domain, p) ensures p == lastDot - start {
      assert content[start + p] == DOT;
    }
    if lastDot <= start || end - lastDot <= 2 {
      return false, steps;
    }
    var letters;
    ghost var more;
    letters, more := AllAsciiLetters(content, lastDot + 1, end);
    steps := steps + more;
    if letters {
      assert ShapedAt(domain, lastDot - start);
    } else {
      assert forall i :: lastDot < i < end ==> content[i] == domain[i - start];
    }
    return letters, steps;
  }

  lemma CandidateAt(content: Text, localStart: nat, at: nat, cursor: nat)
    requires localStart < at < cursor <= |content|
    requires LocalRun(content[localStart..]) == at - localStart && content[at] == AT
    requires cursor == at + 1 + DomainRun(content[at + 1..])
    ensures var rest := content[localStart..];
            && StartsCandidate(rest)
            && First(rest) == Candidate(content[localStart..at], content[at + 1..cursor])
            && AfterFirst(rest) == content[cursor..]
  {
    hide LocalRun, DomainRun;
    var rest := content[localStart..];
    assert rest[at + 1 - localStart..] == content[at + 1..];
    assert content[at + 1..][..cursor - at - 1] == content[at + 1..cursor];
    assert rest[..at - localStart] == content[localStart..at];
  }

  /** Reads the domain that follows the at sign and checks the address. */
  method CheckCandidate(content: Text, localStart: nat, at: nat, normalizedAllowed: Text)
    returns (offends: bool, cursor: nat, ghost steps: nat)
    requires localStart < at < |content|
    requires LocalRun(content[localStart..]) == at - localStart && content[at] == AT
    ensures at < cursor <= |content| && content[cursor..] == AfterFirst(content[localStart..])
    ensures offends <==> var c := First(content[localStart..]);
                         Shaped(Trimmed(c.domain)) && Lower(Address(c)) != normalizedAllowed
    ensures steps <= 5 * (cursor - localStart)
  {
    hide LocalRun, DomainRun, Shaped, Trimmed, First, AfterFirst, Lower;
    var domainStart := at + 1;
    cursor := DomainEnd(content, domainStart);
    CandidateAt(content, localStart, at, cursor);
    var domainEnd;
    ghost var trimming, shaping;
    domainEnd, trimming := TrimEnd(content, domainStart, cursor);
    var hasBoundedShape;
    hasBoundedShape, shaping := HasBoundedShape(content, domainStart, domainEnd);
    steps := 1 + (cursor - domainStart) + trimming + shaping + (domainEnd - localStart);
    assert content[localStart..domainEnd] == Address(First(content[localStart..]));
    offends := hasBoundedShape && Lower(content[localStart..domainEnd]) != normalizedAllowed;
  }

  /** The scan finds an address exactly when the recursive reading does, in work linear in the length of the text. */
  method ContainsEmailOtherThan(content: Text, allowed: Text) returns (found: bool, ghost steps: nat)
    ensures found <==> HasOther(content, allowed)
    ensures steps <= 6 * |content|
  {
    hide HasOther, First, AfterFirst, Trimmed, Shaped, LowerUnit;
    var normalizedAllowed := Lower(allowed);
    var cursor := 0;
    steps := 0;
    assert content[0..] == content;
    while cursor < |content|
      invariant cursor <= |content| && steps <= 6 * cursor
      invariant HasOther(content, allowed) <==> HasOther(content[cursor..], allowed)
    {
      ghost var rest := content[cursor..];
      Progress(rest, allowed);
      if !IsLocal(content[cursor]) {
        assert rest[1..] == content[cursor + 1..];
        cursor, steps := cursor + 1, steps + 1;
        continue;
      }
      var localStart := cursor;
      cursor := LocalEnd(content, localStart);
      steps := steps + (cursor - localStart);
      assert rest[cursor - localStart..] == content[cursor..];
      if cursor >= |content| || content[cursor] != AT {
        continue;
      }
      var offends;
      ghost var more;
      offends, cursor, more := CheckCandidate(content, localStart, cursor, normalizedAllowed);
      steps := steps + more;
      if offends {
        return true, steps;
      }
    }
    assert content[cursor..] == [];
    NothingLeft(allowed);
    return false, steps;
  }

  lemma NothingLeft(allowed: Text)
    ensures !HasOther([], allowed)
  {}

  /** How the recursive reading of a text goes on. */
  lemma Progress(t: Text, allowed: Text)
    requires t != []
    ensures LocalRun(t) == 0 <==> !IsLocal(t[0])
    ensures HasOther(t, allowed) <==>
              if LocalRun(t) == 0 then HasOther(t[1..], allowed)
              else if !StartsCandidate(t) then HasOther(t[LocalRun(t)..], allowed)
              else Offends(First(t), allowed) || HasOther(AfterFirst(t), allowed)
  {
    hide Offends, AnyOffends, First, AfterFirst;
    if StartsCandidate(t) {
      AnyCons(First(t), Candidates(AfterFirst(t)), allowed);
    }
  }

  lemma AnyCons(c: Candidate, rest: seq<Candidate>, allowed: Text)
    ensures AnyOffends([c] + rest, allowed) <==> Offends(c, allowed) || AnyOffends(rest, allowed)
  {
    hide Offends;
    assert c in [c] + rest;
  }
}
