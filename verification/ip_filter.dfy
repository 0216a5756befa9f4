/**
 * The address pool engine: parsing lines into addresses, sorting a pool in
 * place by the numeric value of its first four components, the three
 * filters, and rendering an address as text.
 *
 * An address is kept as its textual components; every numeric reading goes
 * through `Stoi`. A conversion that throws in the library is
 * `ConversionError` here; reading a component that an address does not have
 * (`operator[]` out of bounds) is `MissingComponent`.
 */
module IpFilter {
  import opened Wrappers
  import opened Tokenizer
  import opened Conversion

  type Address = seq<string>
  type IpPool = seq<Address>

  /** The integer 4-tuple an address is ordered by. */
  type Quad = (int, int, int, int)

  datatype PoolError = ConversionError | MissingComponent

  // ---------------------------------------------------------------------------
  // Parsing

  /**
   * `f` is the first tab-separated field of `line`: a tab-free prefix that
   * ends at the first tab or at the end of the line.
   */
  predicate IsFirstField(f: string, line: string) {
    && f <= line
    && '\t' !in f
    && (|f| == |line| || line[|f|] == '\t')
  }

  lemma FirstFieldOfPieces(line: string)
    ensures IsFirstField(Pieces(line, '\t')[0], line)
  {
    match FindFirstOf(line, '\t', 0)
    case None =>
      assert forall j :: 0 <= j < |line| ==> line[j] != '\t';
    case Some(k) =>
      assert Pieces(line, '\t')[0] == line[..k];
      assert forall j :: 0 <= j < k ==> line[..k][j] != '\t';
  }

  /**
   * The address one line holds: its first tab field cut at the dots, one
   * component more than the field has dots, so an empty line gives `[""]`.
   */
  function ParseLine(line: string): (ip: Address)
    ensures |ip| == multiset(Pieces(line, '\t')[0])['.'] + 1
  {
    PiecesCount(Pieces(line, '\t')[0], '.');
    Pieces(Pieces(line, '\t')[0], '.')
  }

  /**
   * Rendering a parsed line with dots gives back exactly the first tab field
   * of the line, and no component contains a dot.
   */
  lemma ParseLineMeaning(line: string)
    ensures Join(ParseLine(line), '.') == Pieces(line, '\t')[0]
    ensures IsFirstField(Join(ParseLine(line), '.'), line)
    ensures forall j :: 0 <= j < |ParseLine(line)| ==> '.' !in ParseLine(line)[j]
    ensures '.' !in Pieces(line, '\t')[0] ==> ParseLine(line) == [Pieces(line, '\t')[0]]
  {
    var field := Pieces(line, '\t')[0];
    FirstFieldOfPieces(line);
    JoinPieces(field, '.');
    PiecesFree(field, '.');
    if '.' !in field {
      PiecesNoDelimiter(field, '.');
    }
  }

  /**
   * `parse_ip_pool`: one address per line, in line order; each address is the
   * first tab field of its line cut at the dots.
   */
  method ParseIpPool(lines: seq<string>) returns (pool: IpPool)
    ensures |pool| == |lines|
    ensures forall i :: 0 <= i < |lines| ==> pool[i] == ParseLine(lines[i])
    ensures forall i :: 0 <= i < |lines| ==> IsFirstField(Join(pool[i], '.'), lines[i])
  {
    pool := [];
    for i := 0 to |lines|
      invariant |pool| == i
      invariant forall k :: 0 <= k < i ==> pool[k] == ParseLine(lines[k])
    {
      var v := Split(lines[i], '\t');
      var ip := Split(v[0], '.');
      pool := pool + [ip];
    }
    forall i | 0 <= i < |lines|
      ensures IsFirstField(Join(pool[i], '.'), lines[i])
    {
      ParseLineMeaning(lines[i]);
    }
  }

  // ---------------------------------------------------------------------------
  // Reading components as numbers

  /** `std::stoi(ip[k])`. */
  function ComponentAt(ip: Address, k: nat): (r: Result<int, PoolError>)
    ensures r == Failure(MissingComponent) <==> k >= |ip|
    ensures r == Failure(ConversionError) <==> k < |ip| && Stoi(ip[k]).None?
    ensures r.Success? ==> k < |ip| && Stoi(ip[k]) == Some(r.value)
  {
    if k >= |ip| then Failure(MissingComponent)
    else match Stoi(ip[k])
      case None => Failure(ConversionError)
      case Some(x) => Success(x)
  }

  /** The first four components as integers, converted left to right. */
  function Octets(ip: Address): (r: Result<Quad, PoolError>)
    ensures r.Success? <==> forall k :: 0 <= k < 4 ==> ComponentAt(ip, k).Success?
    ensures r.Success? ==> r.value == (ComponentAt(ip, 0).value, ComponentAt(ip, 1).value,
                                       ComponentAt(ip, 2).value, ComponentAt(ip, 3).value)
  {
    var a0 :- ComponentAt(ip, 0);
    var a1 :- ComponentAt(ip, 1);
    var a2 :- ComponentAt(ip, 2);
    var a3 :- ComponentAt(ip, 3);
    Success((a0, a1, a2, a3))
  }

  // ---------------------------------------------------------------------------
  // Sorting

  /** `std::tie(a0, a1, a2, a3) > std::tie(b0, b1, b2, b3)`: lexicographic, left to right. */
  predicate QuadGreater(x: Quad, y: Quad)
    ensures QuadGreater(x, y) ==> x != y && x.0 >= y.0
    ensures x.0 > y.0 ==> QuadGreater(x, y)
  {
    || x.0 > y.0
    || (x.0 == y.0 && x.1 > y.1)
    || (x.0 == y.0 && x.1 == y.1 && x.2 > y.2)
    || (x.0 == y.0 && x.1 == y.1 && x.2 == y.2 && x.3 > y.3)
  }

  /** The order on 4-tuples is a strict total order: exactly one of `x > y`, `y > x`, `x == y`. */
  lemma QuadOrderIsTotal(x: Quad, y: Quad, z: Quad)
    ensures !QuadGreater(x, x)
    ensures QuadGreater(x, y) ==> !QuadGreater(y, x)
    ensures x == y || QuadGreater(x, y) || QuadGreater(y, x)
    ensures QuadGreater(x, y) && QuadGreater(y, z) ==> QuadGreater(x, z)
  {
  }

  /** The comparator lambda handed to `std::sort`: `a` goes before `b`. */
  function Comparator(a: Address, b: Address): (r: Result<bool, PoolError>)
    ensures r.Failure? <==> Octets(a).Failure? || Octets(b).Failure?
    ensures Octets(a).Failure? ==> r == Failure(Octets(a).error)
    ensures r.Success? ==> (r.value <==> Octets(a).value != Octets(b).value && !QuadGreater(Octets(b).value, Octets(a).value))
  {
    var ka :- Octets(a);
    var kb :- Octets(b);
    Success(QuadGreater(ka, kb))
  }

  /**
   * The comparator is a strict weak ordering whose equivalence is equality of
   * the four integers, as `std::sort` requires, and it throws exactly when an
   * argument lacks four convertible components.
   */
  lemma ComparatorIsStrictWeakOrder(a: Address, b: Address, c: Address)
    ensures Comparator(a, b).Failure? <==> Octets(a).Failure? || Octets(b).Failure?
    ensures Octets(a).Success? ==> Comparator(a, a) == Success(false)
    ensures Comparator(a, b) == Success(true) ==> Comparator(b, a) == Success(false)
    ensures Comparator(a, b) == Success(true) && Comparator(b, c) == Success(true)
            ==> Comparator(a, c) == Success(true)
    ensures Comparator(a, b) == Success(false) && Comparator(b, a) == Success(false)
            <==> Octets(a).Success? && Octets(b).Success? && Octets(a).value == Octets(b).value
  {
  }

  predicate AllSortable(s: IpPool) {
    forall k :: 0 <= k < |s| ==> Octets(s[k]).Success?
  }

  /**
   * The integer 4-tuple of an address the comparator accepts (an address it
   * rejects gets an arbitrary key; the sort is only run on accepted ones).
   */
  function KeyOf(ip: Address): (q: Quad)
    ensures Octets(ip).Success? ==> q == Octets(ip).value
  {
    match Octets(ip)
    case Success(q) => q
    case Failure(_) => (0, 0, 0, 0)
  }

  /**
   * What `std::sort` promises: no element compares before an element that
   * precedes it.
   */
  predicate SortedByComparator(s: IpPool) {
    forall i, j :: 0 <= i < j < |s| ==> Comparator(s[j], s[i]) == Success(false)
  }

  /** A sorted pool of two or more addresses is in descending numeric order. */
  lemma SortedIsDescending(s: IpPool)
    requires |s| >= 2 && SortedByComparator(s)
    ensures AllSortable(s)
    ensures forall i, j :: 0 <= i < j < |s| ==> KeyOf(s[i]) == KeyOf(s[j]) || QuadGreater(KeyOf(s[i]), KeyOf(s[j]))
  {
    forall k | 0 <= k < |s|
      ensures Octets(s[k]).Success?
    {
      if k == 0 {
        assert Comparator(s[1], s[0]).Success?;
      } else {
        assert Comparator(s[k], s[0]).Success?;
      }
    }
  }

  /** The ordering is numeric: fewer digits can still be the larger component. */
  lemma NumericNotLexicographic()
    ensures Comparator(["10", "0", "0", "0"], ["9", "0", "0", "0"]) == Success(true)
  {
    assert "10"[..1] == "1" && "1"[..0] == "";
    assert DecimalValue("1") == 1;
    assert DecimalValue("10") == 10;
    assert Stoi("10") == Some(10);
  }

  /** Non-increasing keys between neighbours give non-increasing keys between every pair. */
  lemma {:induction false} AdjacentToAll(s: IpPool)
    requires forall p :: 0 < p < |s| ==> !QuadGreater(KeyOf(s[p]), KeyOf(s[p - 1]))
    ensures forall i, j :: 0 <= i < j < |s| ==> !QuadGreater(KeyOf(s[j]), KeyOf(s[i]))
    decreases |s|
  {
    if |s| >= 2 {
      var n := |s|;
      var init := s[..n - 1];
      assert forall p :: 0 <= p < |init| ==> init[p] == s[p];
      AdjacentToAll(init);
      forall i, j | 0 <= i < j < n
        ensures !QuadGreater(KeyOf(s[j]), KeyOf(s[i]))
      {
        if j < n - 1 {
          assert init[i] == s[i] && init[j] == s[j];
        } else if i < n - 2 {
          assert init[i] == s[i] && init[n - 2] == s[n - 2];
          assert !QuadGreater(KeyOf(s[n - 2]), KeyOf(s[i]));
        }
      }
    }
  }

  /** On addresses it accepts, the comparator compares their keys. */
  lemma SortedKeysAreSorted(s: IpPool)
    requires AllSortable(s)
    requires forall i, j :: 0 <= i < j < |s| ==> !QuadGreater(KeyOf(s[j]), KeyOf(s[i]))
    ensures SortedByComparator(s)
  {
  }

  /** Neighbours before position `hi` are in non-increasing key order. */
  ghost predicate NeighboursSorted(s: IpPool, hi: int) {
    forall p :: 0 < p < hi && p < |s| ==> !QuadGreater(KeyOf(s[p]), KeyOf(s[p - 1]))
  }

  /**
   * Midway through inserting the address that started at `i`, now at `j`:
   * the first `i + 1` addresses are sorted around position `j`, and the
   * address at `j` has a larger key than every one it has moved past.
   */
  ghost predicate Inserting(s: IpPool, i: int, j: int) {
    && 0 <= j <= i < |s|
    && (forall p :: 0 < p <= i && p != j && p != j + 1 ==> !QuadGreater(KeyOf(s[p]), KeyOf(s[p - 1])))
    && (0 < j < i ==> !QuadGreater(KeyOf(s[j + 1]), KeyOf(s[j - 1])))
    && (j < i ==> QuadGreater(KeyOf(s[j]), KeyOf(s[j + 1])))
  }

  lemma InsertingStarts(s: IpPool, i: int)
    requires 0 < i < |s| && NeighboursSorted(s, i)
    ensures Inserting(s, i, i)
  {
  }

  /** Swapping the moving address with a smaller neighbour in front keeps the insertion invariant. */
  lemma InsertingSteps(s: IpPool, i: int, j: int)
    requires Inserting(s, i, j) && 0 < j
    requires QuadGreater(KeyOf(s[j]), KeyOf(s[j - 1]))
    ensures Inserting(s[j - 1 := s[j]][j := s[j - 1]], i, j - 1)
  {
    var t := s[j - 1 := s[j]][j := s[j - 1]];
    forall p | 0 < p <= i && p != j - 1 && p != j
      ensures !QuadGreater(KeyOf(t[p]), KeyOf(t[p - 1]))
    {
      if p == j + 1 {
        assert t[p] == s[j + 1] && t[p - 1] == s[j - 1];
      } else {
        assert t[p] == s[p] && t[p - 1] == s[p - 1];
      }
    }
  }

  /** The moving address stops in front of one whose key is not smaller: the prefix is sorted. */
  lemma InsertingEnds(s: IpPool, i: int, j: int)
    requires Inserting(s, i, j)
    requires j == 0 || !QuadGreater(KeyOf(s[j]), KeyOf(s[j - 1]))
    ensures NeighboursSorted(s, i + 1)
  {
  }

  /** Exchanges two neighbouring addresses. */
  method SwapDown(a: array<Address>, j: int)
    requires 0 < j < a.Length
    modifies a
    ensures a[..] == old(a[..])[j - 1 := old(a[j])][j := old(a[j - 1])]
    ensures forall k :: 0 <= k < a.Length && k != j - 1 && k != j ==> a[k] == old(a[k])
    ensures multiset(a[..]) == multiset(old(a[..]))
  {
    a[j - 1], a[j] := a[j], a[j - 1];
  }

  /**
   * One pass of insertion: moves `a[i]` towards the front past every address
   * with a smaller key, so that the first `i + 1` addresses become sorted.
   */
  method InsertAt(a: array<Address>, i: int)
    requires 0 < i < a.Length
    requires NeighboursSorted(a[..], i)
    modifies a
    ensures NeighboursSorted(a[..], i + 1)
    ensures multiset(a[..i + 1]) == multiset(old(a[..i + 1]))
    ensures a[i + 1..] == old(a[i + 1..])
    ensures multiset(a[..]) == multiset(old(a[..]))
  {
    ghost var s0 := a[..];
    var j := i;
    InsertingStarts(a[..], i);
    while j > 0 && QuadGreater(KeyOf(a[j]), KeyOf(a[j - 1]))
      invariant Inserting(a[..], i, j)
      invariant forall k :: i < k < a.Length ==> a[k] == s0[k]
      invariant multiset(a[..]) == multiset(s0)
    {
      InsertingSteps(a[..], i, j);
      SwapDown(a, j);
      j := j - 1;
    }
    InsertingEnds(a[..], i, j);
    assert a[i + 1..] == s0[i + 1..];
    PrefixPermutation(a[..], s0, i + 1);
  }

  /** Two permutations of each other that agree from `n` on agree as multisets before `n`. */
  lemma PrefixPermutation(s: IpPool, t: IpPool, n: nat)
    requires n <= |s| == |t| && multiset(s) == multiset(t) && s[n..] == t[n..]
    ensures multiset(s[..n]) == multiset(t[..n])
  {
    assert s == s[..n] + s[n..];
    assert t == t[..n] + t[n..];
    assert multiset(s[..n]) == multiset(s) - multiset(s[n..]);
    assert multiset(t[..n]) == multiset(t) - multiset(t[n..]);
  }

  /** Reordering keeps every address the comparator accepts. */
  lemma PermutationSortable(s: IpPool, t: IpPool)
    requires multiset(s) == multiset(t) && AllSortable(t)
    ensures AllSortable(s)
  {
    forall k | 0 <= k < |s|
      ensures Octets(s[k]).Success?
    {
      assert s[k] in multiset(t);
    }
  }

  /** The in-place ordering of `std::sort`, given addresses the comparator accepts. */
  method SortDescending(a: array<Address>)
    requires AllSortable(a[..])
    modifies a
    ensures SortedByComparator(a[..])
    ensures multiset(a[..]) == multiset(old(a[..]))
  {
    var i := 1;
    while i < a.Length
      invariant 1 <= i
      invariant i <= a.Length || a.Length == 0
      invariant NeighboursSorted(a[..], i)
      invariant multiset(a[..]) == multiset(old(a[..]))
    {
      InsertAt(a, i);
      i := i + 1;
    }
    PermutationSortable(a[..], old(a[..]));
    AdjacentToAll(a[..]);
    SortedKeysAreSorted(a[..]);
  }

  /**
   * `sort_ip_pool`: with two or more addresses every one of them reaches the
   * comparator, so the sort fails exactly when one lacks four convertible
   * components; otherwise the pool is reordered in place.
   */
  method SortIpPool(pool: array<Address>) returns (outcome: Outcome<PoolError>)
    modifies pool
    ensures outcome.Fail? <==> pool.Length >= 2 && !AllSortable(old(pool[..]))
    ensures outcome.Fail? ==> pool[..] == old(pool[..])
    ensures outcome.Fail? ==> exists k :: 0 <= k < pool.Length && Octets(pool[k]) == Failure(outcome.error)
    ensures outcome.Pass? ==> SortedByComparator(pool[..])
    ensures multiset(pool[..]) == multiset(old(pool[..]))
  {
    if pool.Length < 2 {
      return Pass;
    }
    for i := 0 to pool.Length
      invariant forall k :: 0 <= k < i ==> Octets(pool[k]).Success?
    {
      var key := Octets(pool[i]);
      if key.Failure? {
        return Fail(key.error);
      }
    }
    SortDescending(pool);
    return Pass;
  }

  // ---------------------------------------------------------------------------
  // Filtering

  /** What each of the three filters asks of an address. */
  datatype Criterion = FirstByte(first: int) | FirstTwoBytes(first: int, second: int) | AnyByte(value: int)

  /** The values of the components that convert, in any order. */
  function Converted(parts: seq<string>): set<int> {
    set k | 0 <= k < |parts| && Stoi(parts[k]).Some? :: Stoi(parts[k]).value
  }

  /** Scans the components left to right and stops at the first one equal to `v`. */
  function AnyComponentIs(parts: seq<string>, v: int): (r: Result<bool, PoolError>)
    ensures r.Failure? ==> r.error == ConversionError
    ensures r == Success(true) ==> v in Converted(parts)
  {
    if |parts| == 0 then Success(false)
    else match Stoi(parts[0])
      case None => Failure(ConversionError)
      case Some(x) => if x == v then Success(true) else AnyComponentIs(parts[1..], v)
  }

  /** The test one filter applies to one address, with `&&` short-circuiting. */
  function Matches(c: Criterion, ip: Address): (r: Result<bool, PoolError>)
    ensures c.FirstByte? ==> (r == Success(true) <==> |ip| > 0 && Stoi(ip[0]) == Some(c.first))
    ensures c.FirstByte? ==> (r.Failure? <==> ComponentAt(ip, 0).Failure?)
    ensures c.FirstTwoBytes? ==>
      (r == Success(true) <==> |ip| > 1 && Stoi(ip[0]) == Some(c.first) && Stoi(ip[1]) == Some(c.second))
    ensures c.FirstTwoBytes? ==>
      (r.Failure? <==> ComponentAt(ip, 0).Failure? || (ComponentAt(ip, 0) == Success(c.first) && ComponentAt(ip, 1).Failure?))
    ensures c.AnyByte? && r.Failure? ==> r.error == ConversionError
  {
    match c
    case FirstByte(v) =>
      var b0 :- ComponentAt(ip, 0);
      Success(b0 == v)
    case FirstTwoBytes(v1, v2) =>
      var b0 :- ComponentAt(ip, 0);
      if b0 != v1 then Success(false)
      else
        var b1 :- ComponentAt(ip, 1);
        Success(b1 == v2)
    case AnyByte(v) => AnyComponentIs(ip, v)
  }

  /**
   * The pool a filter builds: the matching addresses in pool order, or the
   * error of the first address whose test throws.
   */
  function Filtered(pool: IpPool, c: Criterion): (r: Result<IpPool, PoolError>)
    ensures r.Success? ==> |r.value| <= |pool|
  {
    if |pool| == 0 then Success([])
    else
      var kept :- Filtered(pool[..|pool| - 1], c);
      var m :- Matches(c, pool[|pool| - 1]);
      Success(if m then kept + [pool[|pool| - 1]] else kept)
  }

  /** `r` can be obtained from `s` by deleting elements. */
  predicate IsSubsequence<T(==)>(r: seq<T>, s: seq<T>)
    decreases |s|
  {
    || |r| == 0
    || (&& |s| > 0
        && ((r[|r| - 1] == s[|s| - 1] && IsSubsequence(r[..|r| - 1], s[..|s| - 1]))
            || IsSubsequence(r, s[..|s| - 1])))
  }

  /**
   * `r` keeps, in their original order, exactly the addresses of `pool` that
   * match, each as often as it occurs in `pool`.
   */
  ghost predicate KeepsExactly(pool: IpPool, c: Criterion, r: IpPool) {
    && IsSubsequence(r, pool)
    && CountsMatch(pool, c, r)
  }

  /** Once a prefix of the pool throws, the whole filter throws the same error. */
  lemma {:induction false} FilteredPrefixFailure(pool: IpPool, c: Criterion, i: nat)
    requires i <= |pool| && Filtered(pool[..i], c).Failure?
    ensures Filtered(pool, c) == Filtered(pool[..i], c)
    decreases |pool|
  {
    if i < |pool| {
      var init := pool[..|pool| - 1];
      assert init[..i] == pool[..i];
      FilteredPrefixFailure(init, c, i);
    } else {
      assert pool[..i] == pool;
    }
  }

  /** Extending a prefix by one address: the step each filter loop takes. */
  lemma FilteredStep(pool: IpPool, c: Criterion, i: nat)
    requires i < |pool|
    ensures Filtered(pool[..i + 1], c) ==
      match Filtered(pool[..i], c)
      case Failure(e) => Failure(e)
      case Success(kept) =>
        match Matches(c, pool[i])
        case Failure(e) => Failure(e)
        case Success(m) => Success(if m then kept + [pool[i]] else kept)
  {
    assert pool[..i + 1][..i] == pool[..i];
  }

  /**
   * A filter succeeds exactly when every address's test succeeds; when it
   * fails, it reports the error of the first address whose test throws.
   */
  lemma {:induction false} FilteredErrors(pool: IpPool, c: Criterion)
    ensures Filtered(pool, c).Success? <==> forall k :: 0 <= k < |pool| ==> Matches(c, pool[k]).Success?
    ensures Filtered(pool, c).Failure? ==>
      exists k :: 0 <= k < |pool| && Matches(c, pool[k]) == Failure(Filtered(pool, c).error)
                  && forall j :: 0 <= j < k ==> Matches(c, pool[j]).Success?
    decreases |pool|
  {
    if |pool| > 0 {
      var n := |pool|;
      var init := pool[..n - 1];
      FilteredErrors(init, c);
      assert forall k :: 0 <= k < n - 1 ==> init[k] == pool[k];
      if Filtered(init, c).Failure? {
        var k :| 0 <= k < |init| && Matches(c, init[k]) == Failure(Filtered(init, c).error)
                 && forall j :: 0 <= j < k ==> Matches(c, init[j]).Success?;
        assert Matches(c, pool[k]) == Failure(Filtered(pool, c).error);
      } else if Matches(c, pool[n - 1]).Failure? {
        assert Matches(c, pool[n - 1]) == Failure(Filtered(pool, c).error);
      }
    }
  }

  lemma {:induction false} SubsequenceSnoc<T>(r: seq<T>, s: seq<T>, x: T)
    requires IsSubsequence(r, s)
    ensures IsSubsequence(r + [x], s + [x]) && IsSubsequence(r, s + [x])
  {
    assert (r + [x])[..|r|] == r;
    assert (s + [x])[..|s|] == s;
  }

  /** A successful filter's result is a subsequence of the pool: order is kept. */
  lemma {:induction false} FilteredIsSubsequence(pool: IpPool, c: Criterion)
    requires Filtered(pool, c).Success?
    ensures IsSubsequence(Filtered(pool, c).value, pool)
    decreases |pool|
  {
    if |pool| > 0 {
      var n := |pool|;
      var init := pool[..n - 1];
      var last := pool[n - 1];
      FilteredIsSubsequence(init, c);
      assert pool == init + [last];
      SubsequenceSnoc(Filtered(init, c).value, init, last);
    }
  }

  /** Every address counted in `r` as often as the pool holds it if it matches, and not at all otherwise. */
  ghost predicate CountsMatch(pool: IpPool, c: Criterion, r: IpPool) {
    forall x :: multiset(r)[x] == (if Matches(c, x) == Success(true) then multiset(pool)[x] else 0)
  }

  /** Counting one more address of the pool, kept exactly when it matches. */
  lemma CountsSnoc(init: IpPool, c: Criterion, kept: IpPool, last: Address, keep: bool)
    requires CountsMatch(init, c, kept) && keep == (Matches(c, last) == Success(true))
    ensures CountsMatch(init + [last], c, if keep then kept + [last] else kept)
  {
    var r := if keep then kept + [last] else kept;
    assert multiset(init + [last]) == multiset(init) + multiset{last};
    assert multiset(r) == multiset(kept) + (if keep then multiset{last} else multiset{});
  }

  /**
   * A successful filter keeps every matching address as often as the pool
   * holds it, and nothing else.
   */
  lemma {:induction false} FilteredCounts(pool: IpPool, c: Criterion)
    requires Filtered(pool, c).Success?
    ensures CountsMatch(pool, c, Filtered(pool, c).value)
    decreases |pool|
  {
    if |pool| > 0 {
      var n := |pool|;
      var init := pool[..n - 1];
      var last := pool[n - 1];
      FilteredCounts(init, c);
      var kept := Filtered(init, c).value;
      var keep := Matches(c, last) == Success(true);
      assert Filtered(pool, c).value == if keep then kept + [last] else kept;
      assert pool == init + [last];
      CountsSnoc(init, c, kept, last, keep);
    }
  }

  lemma FilteredKeepsExactly(pool: IpPool, c: Criterion)
    requires Filtered(pool, c).Success?
    ensures KeepsExactly(pool, c, Filtered(pool, c).value)
  {
    FilteredIsSubsequence(pool, c);
    FilteredCounts(pool, c);
  }

  /** Filtering a filter's result again with the same criterion changes nothing. */
  lemma {:induction false} FilteredIdempotent(pool: IpPool, c: Criterion)
    requires Filtered(pool, c).Success?
    ensures Filtered(Filtered(pool, c).value, c) == Filtered(pool, c)
    decreases |pool|
  {
    if |pool| > 0 {
      var n := |pool|;
      var init := pool[..n - 1];
      var last := pool[n - 1];
      FilteredIdempotent(init, c);
      var kept := Filtered(init, c).value;
      if Matches(c, last) == Success(true) {
        assert (kept + [last])[..|kept|] == kept;
      }
    }
  }

  /**
   * Filtering by the first two bytes is filtering by the first byte and then
   * by the second: it succeeds only where the first-byte filter does, and its
   * result is a subsequence of that filter's result.
   */
  lemma {:induction false} FirstTwoBytesRefinesFirstByte(pool: IpPool, v1: int, v2: int)
    requires Filtered(pool, FirstTwoBytes(v1, v2)).Success?
    ensures Filtered(pool, FirstByte(v1)).Success?
    ensures Filtered(Filtered(pool, FirstByte(v1)).value, FirstTwoBytes(v1, v2)) == Filtered(pool, FirstTwoBytes(v1, v2))
    ensures IsSubsequence(Filtered(pool, FirstTwoBytes(v1, v2)).value, Filtered(pool, FirstByte(v1)).value)
    decreases |pool|
  {
    if |pool| > 0 {
      var n := |pool|;
      var init := pool[..n - 1];
      var last := pool[n - 1];
      FirstTwoBytesRefinesFirstByte(init, v1, v2);
      var r1 := Filtered(init, FirstByte(v1)).value;
      if Matches(FirstByte(v1), last) == Success(true) {
        assert (r1 + [last])[..|r1|] == r1;
      }
    }
    var r1 := Filtered(pool, FirstByte(v1)).value;
    FilteredKeepsExactly(r1, FirstTwoBytes(v1, v2));
  }

  /** The any-byte test matches when some component is `v` and every one before it converts. */
  lemma {:induction false} AnyComponentIsTrue(parts: seq<string>, v: int)
    ensures AnyComponentIs(parts, v) == Success(true) <==>
      exists k :: 0 <= k < |parts| && Stoi(parts[k]) == Some(v) && forall j :: 0 <= j < k ==> Stoi(parts[j]).Some?
    decreases |parts|
  {
    if |parts| > 0 && Stoi(parts[0]).Some? && Stoi(parts[0]) != Some(v) {
      var tail := parts[1..];
      AnyComponentIsTrue(tail, v);
      if AnyComponentIs(parts, v) == Success(true) {
        var k :| 0 <= k < |tail| && Stoi(tail[k]) == Some(v) && forall j :: 0 <= j < k ==> Stoi(tail[j]).Some?;
        assert forall j :: 0 < j <= k + 1 ==> parts[j] == tail[j - 1];
        assert Stoi(parts[k + 1]) == Some(v);
      }
      if exists k :: 0 <= k < |parts| && Stoi(parts[k]) == Some(v) && forall j :: 0 <= j < k ==> Stoi(parts[j]).Some? {
        var k :| 0 <= k < |parts| && Stoi(parts[k]) == Some(v) && forall j :: 0 <= j < k ==> Stoi(parts[j]).Some?;
        assert forall j :: 0 <= j < k - 1 ==> tail[j] == parts[j + 1];
        assert Stoi(tail[k - 1]) == Some(v);
      }
    }
  }

  /** The any-byte test does not match exactly when every component converts and none is `v`. */
  lemma {:induction false} AnyComponentIsFalse(parts: seq<string>, v: int)
    ensures AnyComponentIs(parts, v) == Success(false) <==>
      forall k :: 0 <= k < |parts| ==> Stoi(parts[k]).Some? && Stoi(parts[k]) != Some(v)
    decreases |parts|
  {
    if |parts| > 0 {
      var tail := parts[1..];
      AnyComponentIsFalse(tail, v);
      assert forall k :: 0 < k < |parts| ==> parts[k] == tail[k - 1];
    }
  }

  /**
   * The any-byte test throws exactly when a component fails to convert before
   * any component equal to `v` is reached.
   */
  lemma {:induction false} AnyComponentIsFailure(parts: seq<string>, v: int)
    ensures AnyComponentIs(parts, v).Failure? <==>
      exists k :: 0 <= k < |parts| && Stoi(parts[k]).None? && forall j :: 0 <= j < k ==> Stoi(parts[j]) != Some(v)
    ensures AnyComponentIs(parts, v).Failure? ==> AnyComponentIs(parts, v).error == ConversionError
    decreases |parts|
  {
    if |parts| > 0 && Stoi(parts[0]).Some? && Stoi(parts[0]) != Some(v) {
      var tail := parts[1..];
      AnyComponentIsFailure(tail, v);
      if AnyComponentIs(parts, v).Failure? {
        var k :| 0 <= k < |tail| && Stoi(tail[k]).None? && forall j :: 0 <= j < k ==> Stoi(tail[j]) != Some(v);
        assert forall j :: 0 < j <= k + 1 ==> parts[j] == tail[j - 1];
        assert Stoi(parts[k + 1]).None?;
      }
      if exists k :: 0 <= k < |parts| && Stoi(parts[k]).None? && forall j :: 0 <= j < k ==> Stoi(parts[j]) != Some(v) {
        var k :| 0 <= k < |parts| && Stoi(parts[k]).None? && forall j :: 0 <= j < k ==> Stoi(parts[j]) != Some(v);
        assert forall j :: 0 <= j < k - 1 ==> tail[j] == parts[j + 1];
        assert Stoi(tail[k - 1]).None?;
      }
    }
  }

  /** `filter_by_first_byte`. */
  method FilterByFirstByte(pool: IpPool, firstByte: int) returns (res: Result<IpPool, PoolError>)
    ensures res == Filtered(pool, FirstByte(firstByte))
    ensures res.Success? ==> KeepsExactly(pool, FirstByte(firstByte), res.value)
    ensures res.Failure? <==> exists k :: 0 <= k < |pool| && Matches(FirstByte(firstByte), pool[k]).Failure?
  {
    var result: IpPool := [];
    for i := 0 to |pool|
      invariant Filtered(pool[..i], FirstByte(firstByte)) == Success(result)
    {
      var ip := pool[i];
      FilteredStep(pool, FirstByte(firstByte), i);
      var b0 := ComponentAt(ip, 0);
      if b0.Failure? {
        FilteredPrefixFailure(pool, FirstByte(firstByte), i + 1);
        FilteredErrors(pool, FirstByte(firstByte));
        return Failure(b0.error);
      }
      if b0.value == firstByte {
        result := result + [ip];
      }
    }
    assert pool[..|pool|] == pool;
    FilteredErrors(pool, FirstByte(firstByte));
    FilteredKeepsExactly(pool, FirstByte(firstByte));
    return Success(result);
  }

  /** `filter_by_first_two_bytes`. */
  method FilterByFirstTwoBytes(pool: IpPool, firstByte: int, secondByte: int) returns (res: Result<IpPool, PoolError>)
    ensures res == Filtered(pool, FirstTwoBytes(firstByte, secondByte))
    ensures res.Success? ==> KeepsExactly(pool, FirstTwoBytes(firstByte, secondByte), res.value)
    ensures res.Failure? <==> exists k :: 0 <= k < |pool| && Matches(FirstTwoBytes(firstByte, secondByte), pool[k]).Failure?
  {
    var c := FirstTwoBytes(firstByte, secondByte);
    var result: IpPool := [];
    for i := 0 to |pool|
      invariant Filtered(pool[..i], c) == Success(result)
    {
      var ip := pool[i];
      FilteredStep(pool, c, i);
      var b0 := ComponentAt(ip, 0);
      if b0.Failure? {
        FilteredPrefixFailure(pool, c, i + 1);
        FilteredErrors(pool, c);
        return Failure(b0.error);
      }
      if b0.value == firstByte {
        var b1 := ComponentAt(ip, 1);
        if b1.Failure? {
          FilteredPrefixFailure(pool, c, i + 1);
          FilteredErrors(pool, c);
          return Failure(b1.error);
        }
        if b1.value == secondByte {
          result := result + [ip];
        }
      }
    }
    assert pool[..|pool|] == pool;
    FilteredErrors(pool, c);
    FilteredKeepsExactly(pool, c);
    return Success(result);
  }

  /** `filter_by_any_byte`: an inner scan with a `match` flag and an early `break`. */
  method FilterByAnyByte(pool: IpPool, byteValue: int) returns (res: Result<IpPool, PoolError>)
    ensures res == Filtered(pool, AnyByte(byteValue))
    ensures res.Success? ==> KeepsExactly(pool, AnyByte(byteValue), res.value)
    ensures res.Failure? <==> exists k :: 0 <= k < |pool| && Matches(AnyByte(byteValue), pool[k]).Failure?
  {
    var c := AnyByte(byteValue);
    var result: IpPool := [];
    for i := 0 to |pool|
      invariant Filtered(pool[..i], c) == Success(result)
    {
      var ip := pool[i];
      FilteredStep(pool, c, i);
      var found := false;
      var j := 0;
      while j < |ip|
        invariant 0 <= j <= |ip|
        invariant !found
        invariant AnyComponentIs(ip, byteValue) == AnyComponentIs(ip[j..], byteValue)
      {
        var x := Stoi(ip[j]);
        if x.None? {
          FilteredPrefixFailure(pool, c, i + 1);
          FilteredErrors(pool, c);
          return Failure(ConversionError);
        }
        if x.value == byteValue {
          found := true;
          break;
        }
        assert ip[j..][1..] == ip[j + 1..];
        j := j + 1;
      }
      assert found <==> Matches(c, ip) == Success(true);
      if found {
        result := result + [ip];
      }
    }
    assert pool[..|pool|] == pool;
    FilteredErrors(pool, c);
    FilteredKeepsExactly(pool, c);
    return Success(result);
  }

  // ---------------------------------------------------------------------------
  // Rendering

  /** `ip_to_string`: the components joined with `.`, in an indexed loop. */
  method IpToString(ip: Address) returns (result: string)
    ensures result == Join(ip, '.')
    ensures |ip| >= 1 && (forall i :: 0 <= i < |ip| ==> '.' !in ip[i]) ==> Pieces(result, '.') == ip
  {
    result := "";
    for i := 0 to |ip|
      invariant result == Join(ip[..i], '.')
    {
      if i > 0 {
        result := result + ".";
        JoinSnoc(ip[..i], ip[i], '.');
      }
      result := result + ip[i];
      assert ip[..i + 1] == ip[..i] + [ip[i]];
    }
    assert ip[..|ip|] == ip;
    if |ip| >= 1 && forall i :: 0 <= i < |ip| ==> '.' !in ip[i] {
      PiecesJoin(ip, '.');
    }
  }
}
