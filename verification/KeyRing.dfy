/** The rings that carry keystrokes: a fixed buffer, a producer cursor and a
    consumer cursor that are equal when the ring is empty. The global event queue,
    the terminals' keyboard rings and the BIOS buffer all work like this. */
module KeyRing {
  import opened Numbers

  /** The slot i places behind slot at, in a ring of n. */
  function Slot(at: nat, i: nat, n: nat): nat
    requires at < n && i < n
  {
    if at + i < n then at + i else at + i - n
  }

  class Ring<T(0)> {
    const buf: array<T>
    var head: nat
    var tail: nat
    ghost var keys: seq<T>

    /** From tail to head, the ring holds the keys not yet taken, oldest first. One
        slot always stays empty. */
    ghost predicate Valid()
      reads this, buf
    {
      && head < buf.Length && tail < buf.Length && |keys| < buf.Length
      && head == Slot(tail, |keys|, buf.Length)
      && forall i {:trigger keys[i]} | 0 <= i < |keys| :: buf[Slot(tail, i, buf.Length)] == keys[i]
    }

    constructor (size: nat)
      requires size > 0
      ensures Valid() && fresh(buf) && buf.Length == size && keys == []
    {
      buf := new T[size];
      head, tail, keys := 0, 0, [];
    }

    /** Append a key; a full ring drops it. */
    method Put(k: T) returns (ok: bool)
      requires Valid()
      modifies this, buf
      ensures Valid() && ok == (|old(keys)| + 1 < buf.Length)
      ensures keys == if ok then old(keys) + [k] else old(keys)
    {
      var next := if head + 1 == buf.Length then 0 else head + 1;
      if next == tail {
        return false;
      }
      buf[head] := k;
      head := next;
      keys := keys + [k];
      ok := true;
    }

    /** Look at the oldest key. */
    method Peek() returns (ok: bool, k: T)
      requires Valid()
      ensures ok == (keys != []) && (ok ==> k == keys[0])
    {
      k := buf[tail];
      ok := head != tail;
    }

    /** Take the oldest key. */
    method Take() returns (ok: bool, k: T)
      requires Valid()
      modifies `tail, `keys
      ensures Valid() && ok == (old(keys) != [])
      ensures if ok then k == old(keys)[0] && keys == old(keys)[1..] else keys == old(keys)
    {
      ok, k := Peek();
      if ok {
        tail := if tail + 1 == buf.Length then 0 else tail + 1;
        keys := keys[1..];
      }
    }

    /** Any run of presses and fetches. */
    method Pump(events: seq<Event<T>>) returns (output: seq<T>)
      requires Valid()
      modifies this, buf
      ensures Valid() && keys == Held(old(keys), events, buf.Length - 1)
      ensures output == Fetched(old(keys), events, buf.Length - 1)
    {
      output := [];
      for i := 0 to |events|
        invariant Valid()
        invariant Held(keys, events[i..], buf.Length - 1) == Held(old(keys), events, buf.Length - 1)
        invariant output + Fetched(keys, events[i..], buf.Length - 1) == Fetched(old(keys), events, buf.Length - 1)
      {
        Unfold(keys, events, i, buf.Length - 1);
        ghost var got := FetchedBy(keys, events[i]);
        Regroup(output, got, Fetched(Next(keys, events[i], buf.Length - 1), events[i + 1..], buf.Length - 1));
        var more := Serve(events[i]);
        output := output + more;
      }
    }

    method Serve(e: Event<T>) returns (got: seq<T>)
      requires Valid()
      modifies this, buf
      ensures Valid() && keys == Next(old(keys), e, buf.Length - 1) && got == FetchedBy(old(keys), e)
    {
      got := [];
      match e
      case Press(k) => var ok := Put(k);
      case Fetch =>
        var ok, k := Take();
        if ok {
          got := [k];
        }
    }
  }

  // ------------------------------------------------------------------
  // Runs
  // ------------------------------------------------------------------

  datatype Event<T> = Press(key: T) | Fetch

  /** The held keys after one event, in a ring that holds at most cap. */
  function Next<T>(keys: seq<T>, e: Event<T>, cap: nat): seq<T> {
    match e
    case Press(k) => if |keys| < cap then keys + [k] else keys
    case Fetch => if keys == [] then keys else keys[1..]
  }

  /** The held keys after a run. */
  function Held<T>(keys: seq<T>, events: seq<Event<T>>, cap: nat): seq<T>
    decreases |events|
  {
    if events == [] then keys else Held(Next(keys, events[0], cap), events[1..], cap)
  }

  /** The keys a run fetches. */
  function Fetched<T>(keys: seq<T>, events: seq<Event<T>>, cap: nat): seq<T>
    decreases |events|
  {
    if events == [] then []
    else FetchedBy(keys, events[0]) + Fetched(Next(keys, events[0], cap), events[1..], cap)
  }

  function FetchedBy<T>(keys: seq<T>, e: Event<T>): seq<T> {
    if e.Fetch? && keys != [] then [keys[0]] else []
  }

  lemma Unfold<T>(keys: seq<T>, events: seq<Event<T>>, i: nat, cap: nat)
    requires i < |events|
    ensures var next := Next(keys, events[i], cap);
            && Held(keys, events[i..], cap) == Held(next, events[i + 1..], cap)
            && Fetched(keys, events[i..], cap) == FetchedBy(keys, events[i]) + Fetched(next, events[i + 1..], cap)
  {
    assert events[i..][1..] == events[i + 1..];
  }

  /** The presses that met a ring with room. */
  function Accepted<T>(keys: seq<T>, events: seq<Event<T>>, cap: nat): seq<T>
    decreases |events|
  {
    if events == [] then []
    else AcceptedBy(keys, events[0], cap) + Accepted(Next(keys, events[0], cap), events[1..], cap)
  }

  function AcceptedBy<T>(keys: seq<T>, e: Event<T>, cap: nat): seq<T> {
    if e.Press? && |keys| < cap then [e.key] else []
  }

  function Pressed<T>(events: seq<Event<T>>): seq<T> {
    if events == [] then []
    else (if events[0].Press? then [events[0].key] else []) + Pressed(events[1..])
  }

  /** No press of the run meets a full ring. */
  predicate NeverFull<T>(keys: seq<T>, events: seq<Event<T>>, cap: nat)
    decreases |events|
  {
    events != [] ==>
      && (events[0].Press? ==> |keys| < cap)
      && NeverFull(Next(keys, events[0], cap), events[1..], cap)
  }

  /** Over any run, what came out followed by what is held is what was held followed by
      what was accepted: keys come out in order, none lost, doubled or invented. */
  lemma {:induction false} FirstInFirstOut<T>(keys: seq<T>, events: seq<Event<T>>, cap: nat)
    ensures Fetched(keys, events, cap) + Held(keys, events, cap) == keys + Accepted(keys, events, cap)
    decreases |events|
  {
    if events != [] {
      var e, next, rest := events[0], Next(keys, events[0], cap), events[1..];
      FirstInFirstOut(next, rest, cap);
      assert keys + AcceptedBy(keys, e, cap) == FetchedBy(keys, e) + next;
      Regroup(FetchedBy(keys, e), Fetched(next, rest, cap), Held(next, rest, cap));
      Regroup(FetchedBy(keys, e), next, Accepted(next, rest, cap));
      Regroup(keys, AcceptedBy(keys, e, cap), Accepted(next, rest, cap));
    }
  }

  /** Every press is accepted exactly when none meets a full ring. */
  lemma {:induction false} NothingDroppedIff<T>(keys: seq<T>, events: seq<Event<T>>, cap: nat)
    ensures |Accepted(keys, events, cap)| <= |Pressed(events)|
    ensures Accepted(keys, events, cap) == Pressed(events) <==> NeverFull(keys, events, cap)
    decreases |events|
  {
    if events != [] {
      NothingDroppedIff(Next(keys, events[0], cap), events[1..], cap);
      var accepted, pressed := Accepted(Next(keys, events[0], cap), events[1..], cap), Pressed(events[1..]);
      if events[0].Press? && |keys| < cap {
        var k := events[0].key;
        assert ([k] + accepted)[1..] == accepted && ([k] + pressed)[1..] == pressed;
      } else if events[0].Fetch? {
        assert [] + accepted == accepted && [] + pressed == pressed;
      }
    }
  }
}
