/** The ring of recent messages (server/pkg/pipeline/circular/circularbuffer.go).  The linked
    ring of the container/ring package is an array of slots here, with the element the Buffer
    points at as an index. */
module CircularBuffer {

  datatype Slot<T> = Empty | Held(value: T)

  /** The last n elements, or all of them. */
  function LastOf<T>(s: seq<T>, n: nat): (last: seq<T>)
    ensures |last| <= n
  {
    if |s| <= n then s else s[|s| - n..]
  }

  /** The ring read once around from position at. */
  function Around<T>(slots: seq<Slot<T>>, at: nat): seq<Slot<T>>
    requires at < |slots|
  {
    slots[at..] + slots[..at]
  }

  /** What should be found there: empty slots, then the last messages published. */
  function Expected<T>(published: seq<T>, size: nat): (slots: seq<Slot<T>>)
    ensures |slots| == size
  {
    var last := LastOf(published, size);
    seq(size - |last|, k => Empty) + seq(|last|, k requires 0 <= k < |last| => Held(last[k]))
  }

  lemma ExpectedStep<T>(published: seq<T>, m: T, size: nat)
    requires size >= 1
    ensures Expected(published + [m], size) == Expected(published, size)[1..] + [Held(m)]
  {
    var before, after := LastOf(published, size), LastOf(published + [m], size);
    assert after == if |before| == size then before[1..] + [m] else before + [m];
  }

  /** Overwriting the oldest slot and moving on drops it and adds the new one at the end. */
  lemma AroundStep<T>(slots: seq<Slot<T>>, at: nat, x: Slot<T>)
    requires at < |slots|
    ensures Around(slots[at := x], if at + 1 == |slots| then 0 else at + 1) == Around(slots, at)[1..] + [x]
  {
    var next := slots[at := x];
    assert next[at + 1..] == slots[at + 1..] && next[..at + 1] == slots[..at] + [x];
    assert Around(slots, at)[1..] == slots[at + 1..] + slots[..at];
    if at + 1 == |slots| {
      assert Around(next, 0) == next;
    }
  }

  class Buffer<T> {
    const ring: array<Slot<T>>
    var at: nat
    ghost var published: seq<T>

    ghost predicate Valid()
      reads this, ring
    {
      at < ring.Length && Around(ring[..], at) == Expected(published, ring.Length)
    }

    constructor (size: nat)
      requires size >= 1
      ensures Valid() && published == [] && ring.Length == size && fresh(ring)
    {
      ring := new Slot<T>[size](_ => Empty);
      at, published := 0, [];
    }

    /** Publish */
    method Publish(m: T)
      requires Valid()
      modifies this, ring
      ensures Valid() && published == old(published) + [m]
    {
      ghost var before := ring[..];
      ExpectedStep(published, m, ring.Length);
      ring[at] := Held(m);
      at := if at + 1 == ring.Length then 0 else at + 1;
      published := published + [m];
      AroundStep(before, old(at), Held(m));
    }

    /** GetContents: exactly the last messages published, as many as the ring has room for,
        oldest first. */
    method GetContents() returns (messages: seq<T>)
      requires Valid()
      ensures messages == LastOf(published, ring.Length)
    {
      messages := [];
      ghost var last := LastOf(published, ring.Length);
      ghost var empty := ring.Length - |last|;
      for k := 0 to ring.Length
        invariant messages == last[..if k < empty then 0 else k - empty]
      {
        var p := ring[if at + k < ring.Length then at + k else at + k - ring.Length];
        assert p == Around(ring[..], at)[k] == Expected(published, ring.Length)[k];
        if p.Held? {
          messages := messages + [p.value];
        }
      }
    }
  }
}
