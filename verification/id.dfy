/** The process-wide id counter of `xinghuo-core` (its `id.rs`). The
    atomic `fetch_add` is a plain state step here: ids are issued one
    call at a time. */
module Ids {
  const U64Modulus: nat := 0x1_0000_0000_0000_0000

  type U64 = x: nat | x < U64Modulus

  /** `NonZeroU64`. */
  type NonZeroU64 = x: U64 | x != 0 witness 1

  /** `Counter(AtomicU64)`: the next value to hand out. */
  datatype Counter = Counter(value: U64)

  /** `Counter::new`. */
  const NewCounter := Counter(0)

  /** `fetch_add(1)`: the value before the step and the counter after it,
      wrapping from `u64::MAX` to 0. */
  function FetchAdd(c: Counter): (r: (U64, Counter))
    ensures r.0 == c.value
    ensures r.1.value == (c.value + 1) % U64Modulus
    ensures r.1.value == 0 <==> c.value == U64Modulus - 1
  {
    (c.value, Counter(if c.value == U64Modulus - 1 then 0 else c.value + 1))
  }

  /** `NonZeroU64::new_unchecked`: its caller must pass a non-zero value. */
  function NewUnchecked(v: U64): (n: NonZeroU64)
    requires v != 0
    ensures n as nat == v as nat
  {
    v
  }

  /** `next_nonzero` as written: the raw pre-increment value, before it is
      handed to `new_unchecked`. Whether that hand-over is allowed is
      what `NextNonzeroAllowed` says. */
  function NextNonzeroAsWritten(c: Counter): (r: (U64, Counter))
    ensures r.0 == c.value
    ensures r.1 == FetchAdd(c).1
  {
    FetchAdd(c)
  }

  /** The `new_unchecked` call inside `next_nonzero` meets its contract. */
  predicate NextNonzeroAllowed(c: Counter) {
    NextNonzeroAsWritten(c).0 != 0
  }

  /** The very first `Id::next` takes 0 from a fresh counter and so breaks
      the contract of `new_unchecked`; so does the call after a wrap. */
  lemma {:induction false} FirstIdBreaksNonZero()
    ensures NextNonzeroAsWritten(NewCounter).0 == 0
    ensures !NextNonzeroAllowed(NewCounter)
    ensures !NextNonzeroAllowed(FetchAdd(Counter(U64Modulus - 1)).1)
  {
  }

  /** A counter that starts at 1, as a non-zero id generator needs. */
  const NewCounterIntended := Counter(1)

  /** `next_nonzero` over a counter that has not wrapped: the id is the
      counter's value, which is non-zero. */
  function NextNonzero(c: Counter): (r: (NonZeroU64, Counter))
    requires c.value != 0
    ensures r.0 as nat == c.value as nat
    ensures r.1 == FetchAdd(c).1
  {
    var (v, next) := FetchAdd(c);
    (NewUnchecked(v), next)
  }

  /** The ids `n` successive calls hand out, starting from `c`, while the
      counter stays below `u64::MAX`. */
  function IssueIds(c: Counter, n: nat): (ids: seq<NonZeroU64>)
    requires c.value != 0
    requires c.value + n <= U64Modulus - 1
    ensures |ids| == n
    decreases n
  {
    if n == 0 then []
    else
      var (id, next) := NextNonzero(c);
      [id] + IssueIds(next, n - 1)
  }

  /** Successive ids from one counter are consecutive, hence strictly
      increasing and never repeated, until the counter reaches `u64::MAX`. */
  lemma {:induction false} IssuedIdsIncrease(c: Counter, n: nat)
    requires c.value != 0
    requires c.value + n <= U64Modulus - 1
    ensures forall i :: 0 <= i < n ==> IssueIds(c, n)[i] as nat == c.value + i
    ensures forall i, j :: 0 <= i < j < n ==> IssueIds(c, n)[i] < IssueIds(c, n)[j]
    decreases n
  {
    if n > 0 {
      var next := NextNonzero(c).1;
      IssuedIdsIncrease(next, n - 1);
      var ids := IssueIds(c, n);
      assert ids == [c.value as NonZeroU64] + IssueIds(next, n - 1);
      forall i | 0 <= i < n ensures ids[i] as nat == c.value + i {
        if i > 0 {
          assert ids[i] == IssueIds(next, n - 1)[i - 1];
        }
      }
    }
  }

  /** From the intended start the `k`-th id (counting from 0) is `k + 1`. */
  lemma {:induction false} IntendedIdsStartAtOne(n: nat)
    requires n < U64Modulus - 1
    ensures forall i :: 0 <= i < n ==> IssueIds(NewCounterIntended, n)[i] as nat == i + 1
  {
    IssuedIdsIncrease(NewCounterIntended, n);
  }
}
