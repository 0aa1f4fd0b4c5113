/** Value-level vocabulary shared by every chronicle variant: the newest-first
    view of an installation log, the first-match search behind `includes`,
    intended membership, and the map-then-commit pass behind
    `transformInternalEvents`. */
module History {

  datatype Option<T> = None | Some(value: T)

  /** The outcome of a caller-supplied function that may throw: `Err` carries
      what was thrown. */
  datatype Result<T, X> = Ok(value: T) | Err(error: X)

  /** Which callback a notification went to: the one configured on the
      instance, or the one passed to a single `addEvent` call. */
  datatype Listener = InstanceListener | LocalListener

  /** The newest-first view of a log kept oldest-first: the value logged last
      comes first. This is the shape of `[current, ...past]`. */
  function Reverse<E>(s: seq<E>): (r: seq<E>)
    ensures |r| == |s|
  {
    if s == [] then [] else [s[|s| - 1]] + Reverse(s[..|s| - 1])
  }

  /** Position k of the newest-first view is the (k+1)-th newest entry. */
  lemma {:induction false} ReverseAt<E>(s: seq<E>, k: nat)
    requires k < |s|
    ensures Reverse(s)[k] == s[|s| - 1 - k]
  {
    if k > 0 {
      ReverseAt(s[..|s| - 1], k - 1);
    }
  }

  /** Logging one more value puts it in front of the newest-first view and
      shifts everything else back by one: this is the append step. */
  lemma ReverseSnoc<E>(s: seq<E>, v: E)
    ensures Reverse(s + [v]) == [v] + Reverse(s)
  {
    assert (s + [v])[..|s|] == s;
  }

  /** The newest-first view loses nothing: reading it back newest-first
      gives the log again. */
  lemma {:induction false} ReverseReverse<E>(s: seq<E>)
    ensures Reverse(Reverse(s)) == s
  {
    forall k | 0 <= k < |s|
      ensures Reverse(Reverse(s))[k] == s[k]
    {
      ReverseAt(Reverse(s), k);
      ReverseAt(s, |s| - 1 - k);
    }
  }

  /** The index `Array.prototype.find` stops at: the first element that
      satisfies `pred`, or none. */
  function FirstMatch<E>(s: seq<E>, pred: E -> bool): (r: Option<nat>)
    ensures r.Some? ==> r.value < |s| && pred(s[r.value])
    ensures r.Some? ==> forall j :: 0 <= j < r.value ==> !pred(s[j])
    ensures r.None? ==> forall j :: 0 <= j < |s| ==> !pred(s[j])
  {
    if s == [] then None
    else if pred(s[0]) then Some(0)
    else match FirstMatch(s[1..], pred)
      case None => None
      case Some(i) => Some(i + 1)
  }

  /** Membership as `Chronicle.includes` computes it:
      `Boolean(h.find(e => cmp(e, probe)))`. The first match is returned and
      then converted by the host's truthiness, `truthy`. */
  function IncludesAsWritten<E, P>(h: seq<E>, probe: P, cmp: (E, P) -> bool, truthy: E -> bool): (r: bool)
    ensures r ==> exists i :: 0 <= i < |h| && cmp(h[i], probe) && truthy(h[i])
  {
    match FirstMatch(h, e => cmp(e, probe))
    case None => false
    case Some(i) => truthy(h[i])
  }

  /** What `IncludesAsWritten` answers: true exactly when the FIRST stored
      event that matches the probe is truthy. */
  lemma IncludesAsWrittenMeaning<E, P>(h: seq<E>, probe: P, cmp: (E, P) -> bool, truthy: E -> bool)
    ensures IncludesAsWritten(h, probe, cmp, truthy) <==>
      exists i :: 0 <= i < |h| && cmp(h[i], probe) && truthy(h[i]) &&
        (forall j :: 0 <= j < i ==> !cmp(h[j], probe))
  {
    var pred := e => cmp(e, probe);
    match FirstMatch(h, pred)
    case None =>
    case Some(i) =>
      assert cmp(h[i], probe);
      assert forall j :: 0 <= j < i ==> !cmp(h[j], probe) by {
        forall j | 0 <= j < i
          ensures !cmp(h[j], probe)
        {
          assert !pred(h[j]);
        }
      }
  }

  /** Intended membership: some stored event matches the probe. Like `find`,
      it stops at the first match. */
  function Contains<E, P>(h: seq<E>, probe: P, cmp: (E, P) -> bool): (r: bool)
    ensures r <==> exists i :: 0 <= i < |h| && cmp(h[i], probe)
  {
    if h == [] then false
    else if cmp(h[0], probe) then true
    else
      var rest := Contains(h[1..], probe, cmp);
      assert rest ==> exists i :: 1 <= i < |h| && cmp(h[i], probe) by {
        if rest {
          var i :| 0 <= i < |h[1..]| && cmp(h[1..][i], probe);
          assert cmp(h[i + 1], probe);
        }
      }
      assert (exists i :: 0 <= i < |h| && cmp(h[i], probe)) ==> rest by {
        if exists i :: 0 <= i < |h| && cmp(h[i], probe) {
          var i :| 0 <= i < |h| && cmp(h[i], probe);
          assert i != 0;
          assert cmp(h[1..][i - 1], probe);
        }
      }
      rest
  }

  /** When no stored event is falsy, the code as written answers exactly the
      intended membership question. */
  lemma IncludesAgreesWhenTruthy<E, P>(h: seq<E>, probe: P, cmp: (E, P) -> bool, truthy: E -> bool)
    ensures (forall i :: 0 <= i < |h| ==> truthy(h[i])) ==>
      (IncludesAsWritten(h, probe, cmp, truthy) <==> Contains(h, probe, cmp))
  {
    var pred := e => cmp(e, probe);
    match FirstMatch(h, pred)
    case None =>
      forall i | 0 <= i < |h|
        ensures !cmp(h[i], probe)
      {
        assert !pred(h[i]);
      }
    case Some(i) =>
      assert cmp(h[i], probe);
  }

  /** Whatever the code answers, a `true` is never wrong: it only ever misses
      matches, it never invents one. */
  lemma IncludesAsWrittenSound<E, P>(h: seq<E>, probe: P, cmp: (E, P) -> bool, truthy: E -> bool)
    ensures IncludesAsWritten(h, probe, cmp, truthy) ==> Contains(h, probe, cmp)
  {
    match FirstMatch(h, e => cmp(e, probe))
    case None =>
    case Some(i) =>
      assert cmp(h[i], probe);
  }

  /** The discrepancy: a history holding only the falsy event 0, searched with
      strict equality for 0. The event is there, yet `includes` says false. */
  lemma FalsyMatchMissed()
    ensures Contains([0], 0, (e: int, p: int) => e == p)
    ensures !IncludesAsWritten([0], 0, (e: int, p: int) => e == p, (e: int) => e != 0)
  {
    assert ((e: int, p: int) => e == p)([0][0], 0);
  }

  /** `h.map(f)` with a transformer that may throw. The pass runs left to
      right and the first throw aborts it, so no partial result survives. */
  function MapAll<E, X>(f: E -> Result<E, X>, s: seq<E>): (r: Result<seq<E>, X>)
    ensures r.Ok? ==> |r.value| == |s| && forall i :: 0 <= i < |s| ==> f(s[i]) == Ok(r.value[i])
    ensures r.Err? ==>
      exists i :: 0 <= i < |s| && f(s[i]) == Err(r.error) && (forall j :: 0 <= j < i ==> f(s[j]).Ok?)
  {
    if s == [] then Ok([])
    else match f(s[0])
      case Err(x) => Err(x)
      case Ok(y) =>
        match MapAll(f, s[1..])
        case Err(x) =>
          assert exists i :: 1 <= i < |s| && f(s[i]) == Err(x) && (forall j :: 0 <= j < i ==> f(s[j]).Ok?) by {
            var i :| 0 <= i < |s[1..]| && f(s[1..][i]) == Err(x) &&
              forall j :: 0 <= j < i ==> f(s[1..][j]).Ok?;
            assert f(s[i + 1]) == Err(x);
            forall j | 0 <= j < i + 1
              ensures f(s[j]).Ok?
            {
              if j > 0 {
                assert f(s[1..][j - 1]).Ok?;
              }
            }
          }
          Err(x)
        case Ok(ys) => Ok([y] + ys)
  }

  /** A transformer that never throws: it returns `g(e)` for every event. */
  function NeverThrows<E, X>(g: E -> E): (f: E -> Result<E, X>)
  {
    e => Ok(g(e))
  }

  /** A transformer that never throws maps every event, in place and order. */
  lemma MapAllTotal<E, X>(g: E -> E, s: seq<E>)
    ensures MapAll(NeverThrows<E, X>(g), s) == Ok(seq(|s|, i requires 0 <= i < |s| => g(s[i])))
  {
    var f := NeverThrows<E, X>(g);
    var r := MapAll(f, s);
    forall i | 0 <= i < |s|
      ensures f(s[i]) == Ok(g(s[i]))
    {
    }
    assert r.value == seq(|s|, i requires 0 <= i < |s| => g(s[i]));
  }

  /** A transformer fails as a whole exactly when it throws on some event. */
  lemma MapAllFailsIff<E, X>(f: E -> Result<E, X>, s: seq<E>)
    ensures MapAll(f, s).Err? <==> exists i :: 0 <= i < |s| && f(s[i]).Err?
  {
    var r := MapAll(f, s);
    if r.Ok? {
      forall i | 0 <= i < |s|
        ensures f(s[i]).Ok?
      {
        assert f(s[i]) == Ok(r.value[i]);
      }
    }
  }

  /** `h.map(callback)` when the callback is handed to `map` directly: it is
      called as `callback(element, index, array)` for each index from left to
      right, and the first throw aborts the pass. Positions `k..` of `s`. */
  function MapFrom<E, X>(f: (E, nat, seq<E>) -> Result<E, X>, s: seq<E>, k: nat): (r: Result<seq<E>, X>)
    requires k <= |s|
    ensures r.Ok? ==> |r.value| == |s| - k && forall i :: k <= i < |s| ==> f(s[i], i, s) == Ok(r.value[i - k])
    ensures r.Err? ==>
      exists i :: k <= i < |s| && f(s[i], i, s) == Err(r.error) && (forall j :: k <= j < i ==> f(s[j], j, s).Ok?)
    decreases |s| - k
  {
    if k == |s| then Ok([])
    else match f(s[k], k, s)
      case Err(x) => Err(x)
      case Ok(y) =>
        match MapFrom(f, s, k + 1)
        case Err(x) => Err(x)
        case Ok(ys) => Ok([y] + ys)
  }

  /** The whole of `s.map(callback)` with the index and the array passed on. */
  function MapIndexed<E, X>(f: (E, nat, seq<E>) -> Result<E, X>, s: seq<E>): (r: Result<seq<E>, X>)
    ensures r.Ok? ==> |r.value| == |s| && forall i :: 0 <= i < |s| ==> f(s[i], i, s) == Ok(r.value[i])
    ensures r.Err? ==>
      exists i :: 0 <= i < |s| && f(s[i], i, s) == Err(r.error) && (forall j :: 0 <= j < i ==> f(s[j], j, s).Ok?)
  {
    MapFrom(f, s, 0)
  }

  /** A callback that ignores the index and the array gives the same result as
      the unary map: wrapping it as `(event) => transformer(event)` changes
      nothing for such callbacks. */
  lemma MapIndexedUnary<E, X>(g: E -> Result<E, X>, s: seq<E>)
    ensures MapIndexed((e: E, i: nat, a: seq<E>) => g(e), s) == MapAll(g, s)
  {
    MapFromUnary(g, s, 0);
  }

  /** Positions `k..` of the indexed map agree with the unary map of `s[k..]`. */
  lemma {:induction false} MapFromUnary<E, X>(g: E -> Result<E, X>, s: seq<E>, k: nat)
    requires k <= |s|
    ensures MapFrom((e: E, i: nat, a: seq<E>) => g(e), s, k) == MapAll(g, s[k..])
    decreases |s| - k
  {
    if k < |s| {
      assert s[k..][1..] == s[k + 1..];
      MapFromUnary(g, s, k + 1);
    }
  }

  /** A callback that reads its index maps equal events to different results:
      `[10, 10].map((e, i) => e + i)` is `[10, 11]`. */
  lemma IndexedCallbackSeesPosition()
    ensures MapIndexed((e: int, i: nat, a: seq<int>) => Result<int, bool>.Ok(e + i), [10, 10]) == Ok([10, 11])
  {
    var f := (e: int, i: nat, a: seq<int>) => Result<int, bool>.Ok(e + i);
    var r := MapIndexed(f, [10, 10]);
    assert f([10, 10][0], 0, [10, 10]).Ok? && f([10, 10][1], 1, [10, 10]).Ok?;
    assert r.value == [10, 11];
  }

  /** Mapping the newest-first view of a log, with indices, and reading the
      result back oldest first maps each logged value in place; its index in
      the view is its distance from the newest entry. */
  lemma MapIndexedOfReverse<E, X>(f: (E, nat, seq<E>) -> Result<E, X>, log: seq<E>, events: seq<E>, i: nat)
    requires MapIndexed(f, Reverse(log)) == Ok(events)
    requires i < |log|
    ensures |events| == |log|
    ensures f(log[i], |log| - 1 - i, Reverse(log)) == Ok(Reverse(events)[i])
  {
    var view := Reverse(log);
    var k := |log| - 1 - i;
    assert |events| == |view| == |log|;
    assert f(view[k], k, view) == Ok(events[k]);
    ReverseAt(log, k);
    ReverseAt(events, i);
  }

  /** Storing an indexed map of the newest-first view back as a log: the new
      log has the old length, its newest-first view is the mapped history, and
      each installation is the callback's result for the old one at its
      newest-first index. */
  lemma MapIndexedStoredBack<E, X>(f: (E, nat, seq<E>) -> Result<E, X>, log: seq<E>, events: seq<E>)
    requires MapIndexed(f, Reverse(log)) == Ok(events)
    ensures |Reverse(events)| == |log| && Reverse(Reverse(events)) == events
    ensures forall i :: 0 <= i < |log| ==> f(log[i], |log| - 1 - i, Reverse(log)) == Ok(Reverse(events)[i])
  {
    ReverseReverse(events);
    forall i | 0 <= i < |log|
      ensures f(log[i], |log| - 1 - i, Reverse(log)) == Ok(Reverse(events)[i])
    {
      MapIndexedOfReverse(f, log, events, i);
    }
  }
}
