/**
 * The sliding-window event deduplicator: a deque of (time, signature)
 * entries, oldest first, and a set of the signatures it holds. Each call
 * first evicts the entries older than the window, then reports a duplicate
 * or records the new signature. The SHA-256 signature is a function the
 * deduplicator is given; the clock reading is the `now` argument.
 */
module EventDedup {

  /** The fields the signature is built from. */
  datatype Event = Event(symbol: string, price: real, timestamp: int)

  /** The signatures held in a deque of entries. */
  function Signatures<S>(entries: seq<(real, S)>): set<S>
  {
    set i | 0 <= i < |entries| :: entries[i].1
  }

  /** No signature appears in two entries. */
  predicate NoRepeats<S(==)>(entries: seq<(real, S)>)
  {
    forall i, j :: 0 <= i < j < |entries| ==> entries[i].1 != entries[j].1
  }

  predicate TimesNonDecreasing<S>(entries: seq<(real, S)>)
  {
    forall i, j :: 0 <= i <= j < |entries| ==> entries[i].0 <= entries[j].0
  }

  /** An entry is expired at `now` when it is more than `window` seconds old. */
  predicate Expired<S>(entry: (real, S), now: real, window: real)
  {
    now - entry.0 > window
  }

  /** How many entries, from the front, are expired: the eviction loop stops at the first live one. */
  function ExpiredPrefix<S>(entries: seq<(real, S)>, now: real, window: real): (k: nat)
    ensures k <= |entries|
    ensures forall j :: 0 <= j < k ==> Expired(entries[j], now, window)
    ensures k < |entries| ==> !Expired(entries[k], now, window)
  {
    if |entries| == 0 || !Expired(entries[0], now, window) then 0
    else
      var k := 1 + ExpiredPrefix(entries[1..], now, window);
      assert forall j :: 1 <= j < k ==> entries[j] == entries[1..][j - 1];
      k
  }

  /** Taking the front entry off a deque without repeats takes exactly its signature out of the set. */
  lemma SignaturesTail<S>(entries: seq<(real, S)>)
    requires |entries| > 0 && NoRepeats(entries)
    ensures Signatures(entries[1..]) == Signatures(entries) - {entries[0].1}
  {
    var rest := entries[1..];
    forall s | s in Signatures(entries) - {entries[0].1} ensures s in Signatures(rest) {
      var i :| 0 <= i < |entries| && entries[i].1 == s;
      assert rest[i - 1] == entries[i];
    }
    forall s | s in Signatures(rest) ensures s in Signatures(entries) - {entries[0].1} {
      var i :| 0 <= i < |rest| && rest[i].1 == s;
      assert entries[i + 1] == rest[i];
    }
  }

  class Deduplicator<S(==)> {
    const windowSeconds: real
    /** `_generate_signature`: a hash of the event's fields. */
    const signature: Event -> S
    /** `signatures`: the deque, oldest entry first. */
    var entries: seq<(real, S)>
    /** `signature_set`. */
    var signatureSet: set<S>

    /** The set always holds exactly the deque's signatures, and the deque repeats none. */
    ghost predicate Valid()
      reads this
    {
      signatureSet == Signatures(entries) && NoRepeats(entries)
    }

    constructor (windowSeconds: real := 60.0, signature: Event -> S)
      ensures Valid() && this.windowSeconds == windowSeconds && this.signature == signature
      ensures entries == [] && signatureSet == {}
    {
      this.windowSeconds := windowSeconds;
      this.signature := signature;
      entries := [];
      signatureSet := {};
    }

    /**
     * `is_duplicate(event)` at time `now`: evict the expired front entries,
     * then answer from the set; a new signature is appended with time `now`,
     * a known one is left with its original time.
     */
    method IsDuplicate(event: Event, now: real) returns (duplicate: bool)
      requires Valid()
      modifies this`entries, this`signatureSet
      ensures Valid()
      ensures var kept := old(entries)[ExpiredPrefix(old(entries), now, windowSeconds)..];
              (duplicate <==> signature(event) in Signatures(kept)) &&
              (duplicate ==> entries == kept) &&
              (!duplicate ==> entries == kept + [(now, signature(event))])
      ensures TimesNonDecreasing(old(entries)) && (forall i :: 0 <= i < |old(entries)| ==> old(entries)[i].0 <= now) ==>
                TimesNonDecreasing(entries)
    {
      var sig := signature(event);
      ghost var k := 0;
      while |entries| > 0 && now - entries[0].0 > windowSeconds
        invariant Valid()
        invariant k <= |old(entries)| && entries == old(entries)[k..]
        invariant forall j :: 0 <= j < k ==> Expired(old(entries)[j], now, windowSeconds)
        decreases |entries|
      {
        var oldSignature := entries[0].1;
        SignaturesTail(entries);
        entries := entries[1..];
        signatureSet := signatureSet - {oldSignature};
        k := k + 1;
      }
      assert k == ExpiredPrefix(old(entries), now, windowSeconds);
      if sig in signatureSet {
        return true;
      }
      var appended := entries + [(now, sig)];
      assert Signatures(appended) == Signatures(entries) + {sig} by {
        assert appended[|entries|].1 == sig;
        forall s | s in Signatures(entries) ensures s in Signatures(appended) {
          var i :| 0 <= i < |entries| && entries[i].1 == s;
          assert appended[i] == entries[i];
        }
      }
      entries := appended;
      signatureSet := signatureSet + {sig};
      return false;
    }
  }

  /**
   * The example run with a one-second window: an event, an equal event, a
   * different event, then the first event again a second and a half later.
   * Distinct events are assumed to hash differently.
   */
  method Example(signature: Event -> string, start: real) returns (first: bool, second: bool, third: bool, fourth: bool)
    requires signature(Event("AAPL", 150.0, 1000)) != signature(Event("GOOG", 2800.0, 1001))
    ensures !first && second && !third && !fourth
  {
    var deduplicator := new Deduplicator(1.0, signature);
    var event1 := Event("AAPL", 150.0, 1000);
    var event2 := Event("AAPL", 150.0, 1000);
    var event3 := Event("GOOG", 2800.0, 1001);
    first := deduplicator.IsDuplicate(event1, start);
    second := deduplicator.IsDuplicate(event2, start);
    third := deduplicator.IsDuplicate(event3, start);
    fourth := deduplicator.IsDuplicate(event1, start + 1.5);
  }
}
