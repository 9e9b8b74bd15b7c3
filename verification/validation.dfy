/** Date and expense coercion and the all-or-nothing validation gate
    (books/views.py:147-163). */
module Validation {
  import opened Optional
  import opened Models
  import opened Sheet

  /** The coercing day-first date conversion (`pd.to_datetime`) on one cell: NaN becomes NaT. */
  function ParseDate<V>(env: Env<V>, c: Cell<V>): (d: Option<Date>)
    ensures d.Some? ==> c.Value? && env.toDate(c.v) == d
    ensures d.None? <==> c.Missing? || env.toDate(c.v).None?
  {
    match c
    case Missing => None
    case Value(v) => env.toDate(v)
  }

  /** The coercing numeric conversion (`pd.to_numeric`) on one cell, in cents: NaN stays NaN. */
  function ParseExpense<V>(env: Env<V>, c: Cell<V>): (x: Option<int>)
    ensures x.Some? ==> c.Value? && env.toNumber(c.v) == x
    ensures x.None? <==> c.Missing? || env.toNumber(c.v).None?
  {
    match c
    case Missing => None
    case Value(v) => env.toNumber(v)
  }

  /** The masks the gate builds: `invalid_dates`, `invalid_costs`, their union
      (the rows the gate reports) and their intersection. */
  datatype Fault = BadDate | BadExpense | EitherBad | BothBad

  /** Whether record `r` is caught by mask `f`: a date or expense is bad when its cell is
      NaN or the coercing parser gives up on it. */
  function HasFault<V>(env: Env<V>, r: Record<V>, f: Fault): (b: bool)
    ensures f == BadDate ==> (b <==> r.publishedDate.Missing? || env.toDate(r.publishedDate.v).None?)
    ensures f == BadExpense ==> (b <==> r.distributionExpense.Missing? || env.toNumber(r.distributionExpense.v).None?)
    ensures f == EitherBad ==> (b <==> HasFault(env, r, BadDate) || HasFault(env, r, BadExpense))
    ensures f == BothBad ==> (b <==> HasFault(env, r, BadDate) && HasFault(env, r, BadExpense))
    decreases if f == EitherBad || f == BothBad then 1 else 0
  {
    var badDate := ParseDate(env, r.publishedDate).None?;
    var badExpense := ParseExpense(env, r.distributionExpense).None?;
    match f
    case BadDate => badDate
    case BadExpense => badExpense
    case EitherBad => badDate || badExpense
    case BothBad => badDate && badExpense
  }

  /** The number of records showing fault `f`; with `EitherBad` it is the number of bad
      rows the import reports. */
  function CountFaults<V>(env: Env<V>, recs: seq<Record<V>>, f: Fault): (n: nat)
    ensures n <= |recs|
    ensures n == 0 <==> forall i :: 0 <= i < |recs| ==> !HasFault(env, recs[i], f)
    ensures n == |recs| <==> forall i :: 0 <= i < |recs| ==> HasFault(env, recs[i], f)
    ensures n == |FaultRows(env, recs, f)|
  {
    if |recs| == 0 then
      assert FaultRows(env, recs, f) == {};
      0
    else
      var rest := CountFaults(env, recs[1..], f);
      assert forall i :: 1 <= i < |recs| ==> recs[i] == recs[1..][i - 1];
      WhereCons(recs, r => HasFault(env, r, f));
      (if HasFault(env, recs[0], f) then 1 else 0) + rest
  }

  /** The positions of the records that show fault `f`: the rows `df[mask]` selects. */
  ghost function FaultRows<V>(env: Env<V>, recs: seq<Record<V>>, f: Fault): set<nat> {
    Where(recs, r => HasFault(env, r, f))
  }

  /** The positions of `s` whose element satisfies `p`. */
  ghost function Where<T>(s: seq<T>, p: T -> bool): set<nat> {
    set i: nat | i < |s| && p(s[i])
  }

  /** Each position moved up by one. */
  ghost function Shifted(s: set<nat>): set<nat> {
    set i: nat | i in s :: i + 1
  }

  lemma {:induction false} ShiftedSize(s: set<nat>)
    ensures |Shifted(s)| == |s|
  {
    if s != {} {
      var x :| x in s;
      ShiftedSize(s - {x});
      forall y | y in Shifted(s) ensures y in Shifted(s - {x}) + {x + 1} {
        assert y - 1 in s;
        if y != x + 1 {
          assert y - 1 in s - {x};
        }
      }
      assert Shifted(s) == Shifted(s - {x}) + {x + 1};
    }
  }

  /** The selected positions of a non-empty sequence: possibly position 0, and those of
      its tail moved up by one. */
  lemma WhereCons<T>(s: seq<T>, p: T -> bool)
    requires |s| > 0
    ensures |Where(s, p)| == (if p(s[0]) then 1 else 0) + |Where(s[1..], p)|
  {
    var tail := Where(s[1..], p);
    var head: set<nat> := if p(s[0]) then {0} else {};
    var moved := Shifted(tail);
    forall i | i in moved ensures i in Where(s, p) && i != 0 {
      assert s[1..][i - 1] == s[i];
    }
    forall i | i in Where(s, p) && i != 0 ensures i in moved {
      assert s[1..][i - 1] == s[i];
      assert i - 1 in tail;
    }
    assert Where(s, p) == head + moved;
    assert head * moved == {};
    ShiftedSize(tail);
  }

  /** A record the gate lets through has a date and an expense. */
  predicate Valid<V>(env: Env<V>, r: Record<V>) {
    !HasFault(env, r, EitherBad)
  }

  lemma {:induction false} CountFaultsAppend<V>(env: Env<V>, a: seq<Record<V>>, b: seq<Record<V>>, f: Fault)
    ensures CountFaults(env, a + b, f) == CountFaults(env, a, f) + CountFaults(env, b, f)
  {
    if |a| == 0 {
      assert a + b == b;
    } else {
      assert (a + b)[1..] == a[1..] + b;
      CountFaultsAppend(env, a[1..], b, f);
    }
  }

  /** The reported count is the number of rows with a bad date or a bad expense:
      a row with both counts once, not twice. */
  lemma {:induction false} BadRowsAreUnion<V>(env: Env<V>, recs: seq<Record<V>>)
    ensures CountFaults(env, recs, EitherBad)
         == CountFaults(env, recs, BadDate) + CountFaults(env, recs, BadExpense) - CountFaults(env, recs, BothBad)
  {
    if |recs| > 0 {
      BadRowsAreUnion(env, recs[1..]);
    }
  }

  /** Only the date and expense cells decide the gate: rows that agree on those two cells
      show the same faults, so a NaN subtitle, author or publisher never rejects a row. */
  lemma {:induction false} GateReadsDateAndExpense<V>(env: Env<V>, recs: seq<Record<V>>, other: seq<Record<V>>, f: Fault)
    requires |other| == |recs|
    requires forall i :: 0 <= i < |recs| ==>
               other[i].publishedDate == recs[i].publishedDate && other[i].distributionExpense == recs[i].distributionExpense
    ensures CountFaults(env, other, f) == CountFaults(env, recs, f)
  {
    if |recs| > 0 {
      assert forall i :: 1 <= i < |recs| ==> recs[1..][i - 1] == recs[i] && other[1..][i - 1] == other[i];
      GateReadsDateAndExpense(env, recs[1..], other[1..], f);
    }
  }

  /** A row whose title is NaN never adds to the reported count, whatever its date and
      expense hold: the title filter runs before the gate. */
  lemma UntitledRowNotCounted<V>(env: Env<V>, pre: seq<Record<V>>, r: Record<V>, post: seq<Record<V>>)
    requires r.title.Missing?
    ensures CountFaults(env, KeepTitled(pre + [r] + post), EitherBad)
         == CountFaults(env, KeepTitled(pre), EitherBad) + CountFaults(env, KeepTitled(post), EitherBad)
  {
    UntitledRowDropped(pre, r, post);
    KeepTitledAppend(pre, post);
    CountFaultsAppend(env, KeepTitled(pre), KeepTitled(post), EitherBad);
  }
}
