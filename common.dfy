/** Small shared vocabulary: optional values, HTTP-style results, calendar
    days over integer timestamps, and the two query shapes the handlers use
    (the first row satisfying a filter, and all rows satisfying a filter). */
module Common {

  /** A value that may be missing: Python's `None`, JavaScript's
      `null`/`undefined`. */
  datatype Option<+T> = None | Some(value: T)

  /** The result of a handler that either succeeds or answers with an HTTP
      error status and the detail message the source sends. */
  datatype Result<+T> = Ok(value: T) | Err(status: int, message: string)

  /** Timestamps are whole seconds since the epoch, in UTC. */
  const SecondsPerDay: int := 86400

  /** The calendar day (days since the epoch) on which timestamp `t` falls:
      what `date(t)` gives in the database. */
  function DayOf(t: int): int
  {
    t / SecondsPerDay
  }

  /** The first second of day `d`: a `date` compared with a timestamp. */
  function StartOfDay(d: int): int
  {
    d * SecondsPerDay
  }

  /** A timestamp lies on day `d` exactly when it lies in the half-open
      interval of that day's seconds. */
  lemma DayOfBounds(t: int, d: int)
    ensures DayOf(t) == d <==> StartOfDay(d) <= t < StartOfDay(d + 1)
  {
  }

  /** Python truthiness of an optional string: `None` and `""` are false. */
  predicate Truthy(s: Option<string>)
  {
    s.Some? && s.value != ""
  }

  /** The index of the first element of `s` satisfying `p`, as `.first()`
      returns it over a table scanned in order. */
  function FirstIndex<T>(s: seq<T>, p: T -> bool): (r: Option<nat>)
    ensures r.Some? ==> r.value < |s| && p(s[r.value])
    ensures r.Some? ==> forall j :: 0 <= j < r.value ==> !p(s[j])
    ensures r.None? ==> forall j :: 0 <= j < |s| ==> !p(s[j])
  {
    if |s| == 0 then None
    else if p(s[0]) then Some(0)
    else match FirstIndex(s[1..], p)
      case None => None
      case Some(k) => Some(k + 1)
  }

  /** Two filters that agree on every element of `s` pick the same first
      element. */
  lemma {:induction false} FirstIndexAgrees<T>(s: seq<T>, p: T -> bool, q: T -> bool)
    requires forall j :: 0 <= j < |s| ==> p(s[j]) == q(s[j])
    ensures FirstIndex(s, p) == FirstIndex(s, q)
  {
    if |s| > 0 && !p(s[0]) {
      FirstIndexAgrees(s[1..], p, q);
    }
  }

  /** A byte: an element of a `bytes` value or of a `Uint8Array`. */
  type Byte = b: int | 0 <= b < 256

  /** The elements of `s` satisfying `p`, in table order: a `.filter(...)`
      followed by `.all()`. */
  function Filter<T(!new)>(s: seq<T>, p: T -> bool): (r: seq<T>)
    ensures |r| <= |s|
    ensures forall x :: x in r <==> x in s && p(x)
    ensures forall i :: 0 <= i < |r| ==> p(r[i])
  {
    if |s| == 0 then []
    else if p(s[0]) then [s[0]] + Filter(s[1..], p)
    else Filter(s[1..], p)
  }

  /** A filter every element passes keeps the sequence as it is. */
  lemma {:induction false} FilterKeepsAll<T(!new)>(s: seq<T>, p: T -> bool)
    requires forall i :: 0 <= i < |s| ==> p(s[i])
    ensures Filter(s, p) == s
  {
    if |s| > 0 {
      FilterKeepsAll(s[1..], p);
      assert [s[0]] + s[1..] == s;
    }
  }

  /** The sequence without its element at `i`: a row deleted from a table. */
  function RemoveAt<T>(s: seq<T>, i: nat): (r: seq<T>)
    requires i < |s|
    ensures |r| == |s| - 1
    ensures forall j :: 0 <= j < i ==> r[j] == s[j]
    ensures forall j :: i <= j < |r| ==> r[j] == s[j + 1]
  {
    s[..i] + s[i + 1..]
  }

  /** Removing the one element whose key is `k` leaves exactly the elements
      whose key is not `k`. */
  lemma RemoveAtByKey<T>(s: seq<T>, i: nat, key: T -> int, k: int)
    requires i < |s|
    requires forall j :: 0 <= j < |s| ==> (key(s[j]) == k <==> j == i)
    ensures forall x :: x in RemoveAt(s, i) <==> x in s && key(x) != k
  {
    var r := RemoveAt(s, i);
    forall x ensures x in r <==> x in s && key(x) != k {
      if x in r {
        var j :| 0 <= j < |r| && r[j] == x;
        if j < i {
          assert x == s[j];
        } else {
          assert x == s[j + 1];
        }
      }
      if x in s && key(x) != k {
        var j :| 0 <= j < |s| && s[j] == x;
        if j < i {
          assert r[j] == x;
        } else {
          assert j != i;
          assert r[j - 1] == x;
        }
      }
    }
  }
}
