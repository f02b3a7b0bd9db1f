/**
 The channel send-slot cache: which channel the app believes sits in each radio slot, evicted in
 least-recently-used order, checked against what the radio really holds.
 */
module ChannelSlots {
  import opened Common
  import opened Text

  type Key = string
  type Slot = nat

  datatype Channel = Channel(name: string, key: Key)

  /** Outcome of writing a slot. After a failure the slot may hold anything, or nothing. */
  datatype SetAnswer = Accepted | Failed(now: Option<Channel>)

  datatype SendAnswer = Sent | Refused | NoResponse

  datatype Plan = Plan(slot: Slot, configure: bool, evicted: Option<Key>)

  // ---------------------------------------------------------------------------------------------
  // Recency

  /** One past the position of the last load or use of k; 0 when there is none. */
  function LastUse(log: seq<Key>, k: Key): (n: nat)
    ensures n <= |log|
  {
    if log == [] then 0
    else if log[|log| - 1] == k then |log|
    else LastUse(log[..|log| - 1], k)
  }

  /** Strictly increasing in last use; in particular without duplicates. */
  ghost predicate ByRecency(order: seq<Key>, log: seq<Key>)
  {
    order == [] ||
    var n := |order| - 1;
    && ByRecency(order[..n], log)
    && (forall x :: x in order[..n] ==> LastUse(log, x) < LastUse(log, order[n]))
  }

  /** Pops k from the order. */
  function Without(order: seq<Key>, k: Key): (rest: seq<Key>)
  {
    if order == [] then []
    else
      var n := |order| - 1;
      if order[n] == k then order[..n] else Without(order[..n], k) + [order[n]]
  }

  lemma {:induction false} WithoutFacts(order: seq<Key>, k: Key, log: seq<Key>)
    requires ByRecency(order, log)
    ensures ByRecency(Without(order, k), log)
    ensures forall x :: x in Without(order, k) <==> x in order && x != k
  {
    if order != [] {
      var n := |order| - 1;
      WithoutFacts(order[..n], k, log);
      assert order == order[..n] + [order[n]];
      if order[n] != k {
        var rest := Without(order[..n], k);
        assert (rest + [order[n]])[..|rest|] == rest;
      }
    }
  }

  lemma LastIsLatest(log: seq<Key>, k: Key)
    ensures log != [] && log[|log| - 1] == k ==> LastUse(log, k) == |log| > 0
  {
  }

  lemma LastUseOfOthers(log: seq<Key>, k: Key, x: Key)
    ensures LastUse(log + [k], x) == if x == k then |log| + 1 else LastUse(log, x)
  {
    assert (log + [k])[..|log|] == log;
  }

  lemma {:induction false} RecencyUnderNewEvent(order: seq<Key>, k: Key, log: seq<Key>)
    requires ByRecency(order, log) && k !in order
    ensures ByRecency(order, log + [k])
    ensures forall x :: x in order ==> LastUse(log + [k], x) == LastUse(log, x)
  {
    forall x | x in order
      ensures LastUse(log + [k], x) == LastUse(log, x)
    {
      LastUseOfOthers(log, k, x);
    }
    if order != [] {
      var n := |order| - 1;
      assert forall x :: x in order[..n] ==> x in order;
      assert order[n] in order;
      RecencyUnderNewEvent(order[..n], k, log);
    }
  }

  lemma AppendFacts(order: seq<Key>, k: Key, log: seq<Key>)
    requires ByRecency(order, log) && k !in order
    ensures ByRecency(order + [k], log + [k])
  {
    RecencyUnderNewEvent(order, k, log);
    LastUseOfOthers(log, k, k);
    assert (order + [k])[..|order|] == order;
  }

  lemma {:induction false} FirstIsOldest(order: seq<Key>, log: seq<Key>)
    requires ByRecency(order, log) && order != []
    ensures forall x :: x in order ==> LastUse(log, order[0]) <= LastUse(log, x)
  {
    var n := |order| - 1;
    assert order == order[..n] + [order[n]];
    if n > 0 {
      FirstIsOldest(order[..n], log);
    }
  }

  // ---------------------------------------------------------------------------------------------
  // The two maps

  ghost predicate Inverse(slotByKey: map<Key, Slot>, keyBySlot: map<Slot, Key>)
  {
    && (forall k :: k in slotByKey ==> slotByKey[k] in keyBySlot && keyBySlot[slotByKey[k]] == k)
    && (forall s :: s in keyBySlot ==> keyBySlot[s] in slotByKey && slotByKey[keyBySlot[s]] == s)
  }

  lemma {:induction false} InverseSizes(slotByKey: map<Key, Slot>, keyBySlot: map<Slot, Key>)
    requires Inverse(slotByKey, keyBySlot)
    ensures |slotByKey| == |keyBySlot|
  {
    if slotByKey == map[] {
      assert keyBySlot == map[];
    } else {
      var k :| k in slotByKey;
      var a, b := slotByKey - {k}, keyBySlot - {slotByKey[k]};
      InverseSizes(a, b);
      assert slotByKey.Keys == a.Keys + {k};
      assert keyBySlot.Keys == b.Keys + {slotByKey[k]};
    }
  }

  /** Pigeonhole: below capacity some slot is unclaimed. */
  lemma FreeSlotExists(slotByKey: map<Key, Slot>, keyBySlot: map<Slot, Key>, capacity: nat)
    requires Inverse(slotByKey, keyBySlot) && |slotByKey| < capacity
    ensures exists s: Slot :: s < capacity && s !in keyBySlot
  {
    InverseSizes(slotByKey, keyBySlot);
    BelowSize(capacity);
    if forall s: Slot :: s < capacity ==> s in keyBySlot {
      SubsetSize(Below(capacity), keyBySlot.Keys);
      assert false;
    }
  }

  /** keyBySlot after loading key into slot. */
  function LoadedKeys(slotByKey: map<Key, Slot>, keyBySlot: map<Slot, Key>, key: Key, slot: Slot): map<Slot, Key>
  {
    Vacated(slotByKey, keyBySlot, key, slot)[slot := key]
  }

  /** The slot key leaves behind when it moves. */
  function Vacated(slotByKey: map<Key, Slot>, keyBySlot: map<Slot, Key>, key: Key, slot: Slot): map<Slot, Key>
  {
    if key in slotByKey && slotByKey[key] != slot then keyBySlot - {slotByKey[key]} else keyBySlot
  }

  /** slotByKey after loading key into slot: key moves there, whatever was cached there is displaced. */
  function LoadedSlots(slotByKey: map<Key, Slot>, keyBySlot: map<Slot, Key>, key: Key, slot: Slot): map<Key, Slot>
  {
    var b := Vacated(slotByKey, keyBySlot, key, slot);
    (slotByKey - {key} - (if slot in b && b[slot] != key then {b[slot]} else {}))[key := slot]
  }

  lemma LoadKeepsInverse(slotByKey: map<Key, Slot>, keyBySlot: map<Slot, Key>, key: Key, slot: Slot)
    requires Inverse(slotByKey, keyBySlot)
    ensures Inverse(LoadedSlots(slotByKey, keyBySlot, key, slot), LoadedKeys(slotByKey, keyBySlot, key, slot))
  {
  }

  /** Loading moves one key and displaces at most the one cached in the slot. */
  lemma LoadTouchesOnly(slotByKey: map<Key, Slot>, keyBySlot: map<Slot, Key>, key: Key, slot: Slot)
    requires Inverse(slotByKey, keyBySlot)
    ensures forall k :: k != key ==> (k in LoadedSlots(slotByKey, keyBySlot, key, slot) <==>
      k in slotByKey && slotByKey[k] != slot)
    ensures forall k :: k != key && k in LoadedSlots(slotByKey, keyBySlot, key, slot) ==>
      LoadedSlots(slotByKey, keyBySlot, key, slot)[k] == slotByKey[k]
    ensures LoadedKeys(slotByKey, keyBySlot, key, slot).Keys <= keyBySlot.Keys + {slot}
  {
  }

  ghost predicate TrueOf(slotByKey: map<Key, Slot>, radio: map<Slot, Channel>)
  {
    forall k :: k in slotByKey ==> slotByKey[k] in radio && radio[slotByKey[k]].key == k
  }

  ghost predicate SameExcept(a: map<Slot, Channel>, b: map<Slot, Channel>, slot: Slot)
  {
    forall s :: s != slot ==> (s in a <==> s in b) && (s in a && s in b ==> a[s] == b[s])
  }

  lemma LoadStaysTrue(slotByKey: map<Key, Slot>, keyBySlot: map<Slot, Key>, radio: map<Slot, Channel>,
                      radio': map<Slot, Channel>, key: Key, slot: Slot)
    requires Inverse(slotByKey, keyBySlot) && TrueOf(slotByKey, radio)
    requires SameExcept(radio, radio', slot) && slot in radio' && radio'[slot].key == key
    ensures TrueOf(LoadedSlots(slotByKey, keyBySlot, key, slot), radio')
  {
    LoadTouchesOnly(slotByKey, keyBySlot, key, slot);
  }

  /** Dropping every belief about a slot makes the rest immune to what the slot now holds. */
  lemma DropStaysTrue(slotByKey: map<Key, Slot>, rest: map<Key, Slot>, radio: map<Slot, Channel>,
                      radio': map<Slot, Channel>, slot: Slot)
    requires TrueOf(slotByKey, radio) && SameExcept(radio, radio', slot)
    requires forall k :: k in rest ==> k in slotByKey && rest[k] == slotByKey[k] && rest[k] != slot
    ensures TrueOf(rest, radio')
  {
  }

  // ---------------------------------------------------------------------------------------------
  // The cache object

  class ChannelCache {
    var slotByKey: map<Key, Slot>   // contents of the ordered dictionary ...
    var order: seq<Key>             // ... and its insertion order
    var keyBySlot: map<Slot, Key>
    var maxChannels: int
    var reuse: bool
    var radio: map<Slot, Channel>   // what the radio slots really hold
    ghost var log: seq<Key>         // loads and uses since the last reset

    ghost predicate Valid()
      reads this
    {
      && Ordered()
      && (forall k :: k in slotByKey ==> Upper(k) == k)
      && Inverse(slotByKey, keyBySlot)
      && (!reuse ==> slotByKey == map[])
    }

    /** The order lists exactly the cached keys, least recently loaded or used first. */
    ghost predicate Ordered()
      reads this
    {
      ByRecency(order, log) && (forall k :: k in order <==> k in slotByKey)
    }

    function Capacity(): (n: nat)
      reads this
      ensures n >= 1 && n >= maxChannels && (n == 1 || n == maxChannels)
    {
      if maxChannels < 1 then 1 else maxChannels
    }

    ghost predicate WithinCapacity()
      reads this
    {
      forall s :: s in keyBySlot ==> s < Capacity()
    }

    /** Every cached belief is true of the radio. */
    ghost predicate Agrees()
      reads this
    {
      TrueOf(slotByKey, radio)
    }

    constructor (reuse: bool, maxChannels: int, radio: map<Slot, Channel>)
      ensures Valid() && WithinCapacity() && Agrees() && slotByKey == map[]
      ensures this.radio == radio && this.reuse == reuse && this.maxChannels == maxChannels
    {
      this.slotByKey, this.order, this.keyBySlot, this.log := map[], [], map[], [];
      this.reuse, this.maxChannels, this.radio := reuse, maxChannels, radio;
    }

    method Reset()
      modifies this`slotByKey, this`order, this`keyBySlot, this`log
      ensures Valid() && WithinCapacity() && Agrees() && slotByKey == map[]
    {
      slotByKey, order, keyBySlot, log := map[], [], map[], [];
    }

    /** Preferred slot if unclaimed, else the lowest unclaimed one; preferred again only if all are claimed. */
    method FindFirstFree(capacity: nat, preferred: Slot) returns (slot: Slot)
      ensures preferred < capacity && preferred !in keyBySlot ==> slot == preferred
      ensures (exists s: Slot :: s < capacity && s !in keyBySlot) ==> slot < capacity && slot !in keyBySlot
      ensures slot != preferred ==> forall s: Slot :: s < slot ==> s in keyBySlot
      ensures (forall s: Slot :: s < capacity ==> s in keyBySlot) ==> slot == preferred
    {
      if preferred < capacity && preferred !in keyBySlot {
        return preferred;
      }
      slot := 0;
      while slot < capacity
        invariant slot <= capacity
        invariant forall s: Slot :: s < slot ==> s in keyBySlot
      {
        if slot !in keyBySlot {
          return;
        }
        slot := slot + 1;
      }
      slot := preferred;
    }

    method PlanSend(channelKey: Key, preferred: Slot) returns (plan: Plan)
      requires Valid() && WithinCapacity()
      ensures !reuse ==> plan == Plan(preferred, true, None)
      ensures reuse && Upper(channelKey) in slotByKey ==> plan == Plan(slotByKey[Upper(channelKey)], false, None)
      ensures reuse && Upper(channelKey) !in slotByKey ==> plan.configure && plan.slot < Capacity()
      // Below capacity nothing is displaced; at capacity the least recently loaded or used key goes.
      ensures reuse && Upper(channelKey) !in slotByKey && plan.evicted.None? ==> plan.slot !in keyBySlot
      ensures plan.evicted.Some? ==>
        && reuse && |slotByKey| >= Capacity() && plan.evicted.value in slotByKey
        && plan.slot == slotByKey[plan.evicted.value]
        && (forall k :: k in slotByKey ==> LastUse(log, plan.evicted.value) <= LastUse(log, k))
    {
      if !reuse {
        return Plan(preferred, true, None);
      }
      var key := Upper(channelKey);
      if key in slotByKey {
        return Plan(slotByKey[key], false, None);
      }
      var capacity := Capacity();
      if |slotByKey| < capacity {
        FreeSlotExists(slotByKey, keyBySlot, capacity);
        var slot := FindFirstFree(capacity, preferred);
        return Plan(slot, true, None);
      }
      var someKey :| someKey in slotByKey;
      assert someKey in order;
      FirstIsOldest(order, log);
      var evicted := order[0];
      return Plan(slotByKey[evicted], true, Some(evicted));
    }

    method NoteLoaded(channelKey: Key, slot: Slot)
      requires Valid()
      modifies this`slotByKey, this`order, this`keyBySlot, this`log
      ensures Valid()
      ensures !reuse ==> slotByKey == old(slotByKey) && keyBySlot == old(keyBySlot) && log == old(log)
      ensures reuse ==> log == old(log) + [Upper(channelKey)]
      ensures reuse ==> slotByKey == LoadedSlots(old(slotByKey), old(keyBySlot), Upper(channelKey), slot)
      ensures reuse ==> Upper(channelKey) in slotByKey && slotByKey[Upper(channelKey)] == slot
      ensures reuse ==> slot in keyBySlot && keyBySlot[slot] == Upper(channelKey)
      ensures reuse ==> keyBySlot == LoadedKeys(old(slotByKey), old(keyBySlot), Upper(channelKey), slot)
    {
      if !reuse {
        return;
      }
      var key := Upper(channelKey);
      UpperTwice(channelKey);
      LoadKeepsInverse(slotByKey, keyBySlot, key, slot);
      Displace(key, slot);
      keyBySlot := keyBySlot[slot := key];
      Remember(key, slot);
    }

    /** Takes the key out of its old slot, and whatever key is cached in the new one out of the cache. */
    method Displace(key: Key, slot: Slot)
      requires Ordered()
      modifies this`slotByKey, this`order, this`keyBySlot
      ensures Ordered() && key !in slotByKey
      ensures keyBySlot == Vacated(old(slotByKey), old(keyBySlot), key, slot)
      ensures slotByKey == old(slotByKey) - {key} -
        (if slot in keyBySlot && keyBySlot[slot] != key then {keyBySlot[slot]} else {})
    {
      if key in slotByKey && slotByKey[key] != slot {
        keyBySlot := keyBySlot - {slotByKey[key]};
      }
      Forget(key);
      if slot in keyBySlot && keyBySlot[slot] != key {
        Forget(keyBySlot[slot]);
      }
    }

    /** Inserts a key at the young end of the ordered dictionary. */
    method Remember(key: Key, slot: Slot)
      requires Ordered() && key !in slotByKey
      modifies this`slotByKey, this`order, this`log
      ensures Ordered() && slotByKey == old(slotByKey)[key := slot] && log == old(log) + [key]
      ensures order == old(order) + [key]
    {
      AppendFacts(order, key, log);
      slotByKey, order, log := slotByKey[key := slot], order + [key], log + [key];
    }

    /** Pops one key of the ordered dictionary. */
    method Forget(key: Key)
      requires Ordered()
      modifies this`slotByKey, this`order
      ensures Ordered()
      ensures slotByKey == old(slotByKey) - {key}
    {
      WithoutFacts(order, key, log);
      slotByKey, order := slotByKey - {key}, Without(order, key);
    }

    method NoteUsed(channelKey: Key)
      requires Valid()
      modifies this`slotByKey, this`order, this`keyBySlot, this`log
      ensures Valid() && slotByKey == old(slotByKey) && keyBySlot == old(keyBySlot)
      ensures reuse && Upper(channelKey) in slotByKey ==> log == old(log) + [Upper(channelKey)]
    {
      if !reuse {
        return;
      }
      var key := Upper(channelKey);
      if key !in slotByKey {
        return;
      }
      var slot := slotByKey[key];
      Forget(key);
      Remember(key, slot);
      keyBySlot := keyBySlot[slot := key];
      assert slotByKey == old(slotByKey) && keyBySlot == old(keyBySlot);
    }

    method Invalidate(channelKey: Key)
      requires Valid()
      modifies this`slotByKey, this`order, this`keyBySlot
      ensures Valid() && slotByKey == old(slotByKey) - {Upper(channelKey)}
      ensures keyBySlot.Keys <= old(keyBySlot).Keys
    {
      var key := Upper(channelKey);
      if key !in slotByKey {
        assert slotByKey - {key} == slotByKey;
        return;
      }
      var slot := slotByKey[key];
      Forget(key);
      if slot in keyBySlot && keyBySlot[slot] == key {
        keyBySlot := keyBySlot - {slot};
      }
    }

    /** The radio's own reaction to a slot write. */
    method WriteSlot(slot: Slot, channel: Channel, answer: SetAnswer)
      modifies this`radio
      ensures answer.Accepted? ==> radio == old(radio)[slot := channel]
      ensures SameExcept(old(radio), radio, slot)
    {
      if answer.Accepted? {
        radio := radio[slot := channel];
      } else if answer.now.Some? {
        radio := radio[slot := answer.now.value];
      } else {
        radio := radio - {slot};
      }
    }

    /** A slot write failed: no belief about that slot survives. */
    method WriteFailed(plan: Plan, ghost before: map<Slot, Channel>)
      requires Valid() && WithinCapacity() && SameExcept(before, radio, plan.slot)
      requires plan.slot in keyBySlot ==> plan.evicted == Some(keyBySlot[plan.slot])
      modifies this`slotByKey, this`order, this`keyBySlot
      ensures Valid() && WithinCapacity()
      ensures TrueOf(old(slotByKey), before) ==> Agrees()
    {
      if plan.evicted.Some? {
        Invalidate(plan.evicted.value);
      }
      if TrueOf(old(slotByKey), before) {
        DropStaysTrue(old(slotByKey), slotByKey, before, radio, plan.slot);
      }
    }

    /** A slot write succeeded: the key is now cached there. */
    method WriteSucceeded(key: Key, slot: Slot, ghost before: map<Slot, Channel>)
      requires Valid() && WithinCapacity() && (reuse ==> slot < Capacity()) && Upper(key) == key
      requires SameExcept(before, radio, slot) && slot in radio && radio[slot].key == key
      modifies this`slotByKey, this`order, this`keyBySlot, this`log
      ensures Valid() && WithinCapacity()
      ensures TrueOf(old(slotByKey), before) ==> Agrees()
      ensures reuse ==> key in slotByKey && slotByKey[key] == slot
    {
      LoadKeepsInverse(slotByKey, keyBySlot, key, slot);
      if TrueOf(slotByKey, before) {
        LoadStaysTrue(slotByKey, keyBySlot, before, radio, key, slot);
      }
      NoteLoaded(key, slot);
    }

    /**
     One channel send: plan, write the slot if needed, record it, transmit, record the use.
     Nothing goes out on a slot holding another channel as long as the cache agreed with the radio,
     and the cache still agrees afterwards, whatever the radio answered and whatever a failed write
     left in the slot.
     */
    method Send(name: string, channelKey: Key, preferred: Slot, write: SetAnswer, answer: SendAnswer)
      returns (transmittedOn: Option<Slot>)
      requires Valid() && WithinCapacity()
      modifies this`slotByKey, this`order, this`keyBySlot, this`log, this`radio
      ensures Valid() && WithinCapacity()
      ensures old(Agrees()) ==> Agrees()
      ensures old(Agrees()) && transmittedOn.Some? ==>
        transmittedOn.value in radio && radio[transmittedOn.value].key == Upper(channelKey)
      ensures transmittedOn.None? <==> write.Failed? && !(reuse && Upper(channelKey) in old(slotByKey))
      // A sent channel is cached where it went out and is the most recently used; a refused one is forgotten.
      ensures reuse && transmittedOn.Some? && answer.Sent? ==>
        Upper(channelKey) in slotByKey && slotByKey[Upper(channelKey)] == transmittedOn.value &&
        LastUse(log, Upper(channelKey)) == |log| > 0
      ensures transmittedOn.Some? && answer.Refused? ==> Upper(channelKey) !in slotByKey
    {
      transmittedOn := PrepareSlot(name, channelKey, preferred, write);
      if transmittedOn.Some? {
        match answer {
          case NoResponse =>
          case Refused => Invalidate(channelKey);
          case Sent =>
            NoteUsed(channelKey);
            LastIsLatest(log, Upper(channelKey));
        }
      }
    }

    /** The slot to transmit on, planned and written if needed; none if the write failed. */
    method PrepareSlot(name: string, channelKey: Key, preferred: Slot, write: SetAnswer) returns (slot: Option<Slot>)
      requires Valid() && WithinCapacity()
      modifies this`slotByKey, this`order, this`keyBySlot, this`log, this`radio
      ensures Valid() && WithinCapacity()
      ensures old(Agrees()) ==> Agrees()
      ensures old(Agrees()) && slot.Some? ==> slot.value in radio && radio[slot.value].key == Upper(channelKey)
      ensures slot.None? <==> write.Failed? && !(reuse && Upper(channelKey) in old(slotByKey))
      ensures reuse && slot.Some? ==> Upper(channelKey) in slotByKey && slotByKey[Upper(channelKey)] == slot.value
    {
      var key := Upper(channelKey);
      UpperTwice(channelKey);
      var plan := PlanSend(channelKey, preferred);
      if plan.configure {
        WriteSlot(plan.slot, Channel(name, key), write);
        if write.Failed? {
          WriteFailed(plan, old(radio));
          return None;
        }
        WriteSucceeded(key, plan.slot, old(radio));
      }
      slot := Some(plan.slot);
    }

    /** Some other client rewrites radio slots behind the app's back. */
    method OutsideClient(now: map<Slot, Channel>)
      modifies this`radio
      ensures radio == now
    {
      radio := now;
    }

    ghost predicate EntryMatches(k: Key, names: map<Key, string>, readable: set<Slot>)
      requires k in slotByKey
      reads this
    {
      var slot := slotByKey[k];
      slot in readable && slot in radio && radio[slot].key == k && k in names && radio[slot].name == names[k]
    }

    /**
     Compares every cached slot with the radio and the stored channel names, and resets the cache on
     any mismatch. Afterwards the cache agrees with the radio even if it did not before.
     */
    method Audit(names: map<Key, string>, readable: set<Slot>) returns (ok: bool)
      requires Valid() && WithinCapacity()
      modifies this`slotByKey, this`order, this`keyBySlot, this`log
      ensures Valid() && WithinCapacity() && Agrees()
      ensures ok <==> old(forall k :: k in slotByKey ==> EntryMatches(k, names, readable))
      ensures ok && reuse ==> forall k :: k in slotByKey ==>
        && slotByKey[k] in readable && slotByKey[k] in radio && k in names
        && radio[slotByKey[k]].key == k && radio[slotByKey[k]].name == names[k]
      ensures !ok ==> exists k ::
        && k in old(slotByKey)
        && (|| old(slotByKey)[k] !in readable || old(slotByKey)[k] !in radio || k !in names
            || radio[old(slotByKey)[k]].key != k || radio[old(slotByKey)[k]].name != names[k])
      ensures if ok then slotByKey == old(slotByKey) && order == old(order) else slotByKey == map[]
    {
      if !reuse {
        return true;
      }
      var mismatches := 0;
      var i := 0;
      while i < |order|
        invariant 0 <= i <= |order|
        invariant mismatches == 0 <==> forall j :: 0 <= j < i ==> EntryMatches(order[j], names, readable)
        invariant mismatches >= 0
      {
        var key := order[i];
        var slot := slotByKey[key];
        if slot !in readable || slot !in radio {
          mismatches := mismatches + 1;
        } else if radio[slot].key != key || key !in names || radio[slot].name != names[key] {
          mismatches := mismatches + 1;
        }
        i := i + 1;
      }
      ok := mismatches == 0;
      if !ok {
        Reset();
      }
    }

    /** Any sequence of operations: the beliefs hold unless an outside change came after the last audit or reset. */
    method Run(ops: seq<Op>)
      requires Valid() && WithinCapacity() && Agrees()
      modifies this`slotByKey, this`order, this`keyBySlot, this`log, this`radio
      ensures Valid() && WithinCapacity()
      ensures Trusted(ops) ==> Agrees()
    {
      var i := 0;
      while i < |ops|
        invariant 0 <= i <= |ops|
        invariant Valid() && WithinCapacity()
        invariant Trusted(ops[..i]) ==> Agrees()
      {
        assert ops[..i + 1][..i] == ops[..i];
        Perform(ops[i]);
        i := i + 1;
      }
      assert ops[..i] == ops;
    }

    method Perform(op: Op)
      requires Valid() && WithinCapacity()
      modifies this`slotByKey, this`order, this`keyBySlot, this`log, this`radio
      ensures Valid() && WithinCapacity()
      ensures op.AuditOp? || op.ResetOp? || (old(Agrees()) && !op.OutsideOp?) ==> Agrees()
    {
      match op
      case SendOp(name, key, preferred, write, answer) =>
        var _ := Send(name, key, preferred, write, answer);
      case UsedOp(key) => NoteUsed(key);
      case InvalidateOp(key) => Invalidate(key);
      case ResetOp => Reset();
      case AuditOp(names, readable) => var _ := Audit(names, readable);
      case OutsideOp(now) => OutsideClient(now);
    }
  }

  datatype Op =
    | SendOp(name: string, key: Key, preferred: Slot, write: SetAnswer, answer: SendAnswer)
    | UsedOp(key: Key)
    | InvalidateOp(key: Key)
    | ResetOp
    | AuditOp(names: map<Key, string>, readable: set<Slot>)
    | OutsideOp(now: map<Slot, Channel>)

  /** No outside change since the last audit or reset. */
  predicate Trusted(ops: seq<Op>)
  {
    if ops == [] then true
    else match ops[|ops| - 1]
      case OutsideOp(_) => false
      case AuditOp(_, _) => true
      case ResetOp => true
      case _ => Trusted(ops[..|ops| - 1])
  }
}
