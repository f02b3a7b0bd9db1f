/**
 Background contact reconciliation: converging the radio's contact table towards the desired working
 set, two radio commands per lock hold, against a radio that may answer anything.
 */
module ContactReconcile {
  import opened Common

  type Key = string

  const BATCH_SIZE: nat := 2

  /** Error and Raised leave open whether the command took effect before it went wrong. */
  datatype Answer = Ok | NotFound | TableFull | Error(applied: bool) | Raised(applied: bool)

  datatype Command = Remove(key: Key) | Add(key: Key)

  predicate Good(c: Command, a: Answer)
  {
    a.Ok? || (c.Remove? && a.NotFound?)
  }

  function Prefix(k: Key): Key
  {
    if |k| <= 12 then k else k[..12]
  }

  /** No looked-up prefix of these keys hits a library entry for a different key. */
  ghost predicate PrefixesUnique(keys: set<Key>, library: set<Key>)
  {
    forall k, l :: k in keys && l in library && Prefix(k) <= l ==> l == k
  }

  /** Contacts to remove plus contacts to add. */
  function Gap(believed: set<Key>, desired: set<Key>): nat
  {
    |believed - desired| + |desired - believed|
  }

  // ---------------------------------------------------------------------------------------------
  // What a stretch of the command log achieved

  /** Contacts whose removal succeeded, or that the radio did not have. */
  ghost function Dropped(log: seq<Command>, answers: nat -> Answer, from: nat): set<Key>
  {
    if |log| <= from then {}
    else
      var n := |log| - 1;
      Dropped(log[..n], answers, from) + (if log[n].Remove? && Good(log[n], answers(n)) then {log[n].key} else {})
  }

  /** Contacts the radio accepted. */
  ghost function Loaded(log: seq<Command>, answers: nat -> Answer, from: nat): set<Key>
  {
    if |log| <= from then {}
    else
      var n := |log| - 1;
      Loaded(log[..n], answers, from) + (if log[n].Add? && Good(log[n], answers(n)) then {log[n].key} else {})
  }

  /** Commands that failed, for whatever reason. */
  ghost function Refusals(log: seq<Command>, answers: nat -> Answer, from: nat): nat
  {
    if |log| <= from then 0
    else
      var n := |log| - 1;
      Refusals(log[..n], answers, from) + (if Good(log[n], answers(n)) then 0 else 1)
  }

  /** The record, read off the log: which commands were sent for a contact and how they were answered. */
  lemma {:induction false} RecordMeans(log: seq<Command>, answers: nat -> Answer, from: nat, k: Key)
    ensures k in Dropped(log, answers, from) <==>
      exists i :: from <= i < |log| && log[i] == Remove(k) && (answers(i).Ok? || answers(i).NotFound?)
    ensures k in Loaded(log, answers, from) <==> exists i :: from <= i < |log| && log[i] == Add(k) && answers(i).Ok?
    ensures Refusals(log, answers, from) == 0 <==> forall i :: from <= i < |log| ==> Good(log[i], answers(i))
  {
    if |log| > from {
      var n := |log| - 1;
      var before := log[..n];
      RecordMeans(before, answers, from, k);
      assert forall i :: 0 <= i < n ==> before[i] == log[i];
    }
  }

  lemma OneAnswerMore(log: seq<Command>, c: Command, answers: nat -> Answer, from: nat)
    requires from <= |log|
    ensures var good := Good(c, answers(|log|)); var after := log + [c];
      && Dropped(after, answers, from) ==
        (if c.Remove? && good then Dropped(log, answers, from) + {c.key} else Dropped(log, answers, from))
      && Loaded(after, answers, from) ==
        (if c.Add? && good then Loaded(log, answers, from) + {c.key} else Loaded(log, answers, from))
      && Refusals(after, answers, from) == Refusals(log, answers, from) + (if good then 0 else 1)
  {
    assert (log + [c])[..|log|] == log;
  }

  function Held(initial: set<Key>, dropped: set<Key>, loaded: set<Key>, taken: set<Key>): set<Key>
  {
    initial - dropped + loaded + taken
  }

  lemma HeldAfterDrop(initial: set<Key>, dropped: set<Key>, loaded: set<Key>, taken: set<Key>, k: Key)
    requires k !in loaded && k !in taken
    ensures Held(initial, dropped + {k}, loaded, taken) == Held(initial, dropped, loaded, taken) - {k}
  {
  }

  lemma HeldAfterLoad(initial: set<Key>, dropped: set<Key>, loaded: set<Key>, taken: set<Key>, k: Key)
    ensures Held(initial, dropped, loaded + {k}, taken) == Held(initial, dropped, loaded, taken) + {k}
    ensures Held(initial, dropped, loaded, taken + {k}) == Held(initial, dropped, loaded, taken) + {k}
  {
  }

  /** The radio, with the client library's own contact cache. Its answers are fixed but arbitrary. */
  class Radio {
    const answers: nat -> Answer
    var table: set<Key>
    var library: set<Key>
    var log: seq<Command>

    constructor (answers: nat -> Answer, table: set<Key>, library: set<Key>)
      ensures this.answers == answers && this.table == table && this.library == library && log == []
    {
      this.answers, this.table, this.library, this.log := answers, table, library, [];
    }

    method RemoveContact(k: Key) returns (a: Answer)
      modifies this`table, this`log
      ensures a == answers(|old(log)|) && log == old(log) + [Remove(k)]
      ensures old(table) - {k} <= table <= old(table)
    {
      a := answers(|log|);
      log := log + [Remove(k)];
      if a.Ok? || ((a.Error? || a.Raised?) && a.applied) {
        table := table - {k};
      }
    }

    method AddContact(k: Key) returns (a: Answer)
      modifies this`table, this`log
      ensures a == answers(|old(log)|) && log == old(log) + [Add(k)]
      ensures old(table) <= table <= old(table) + {k}
      ensures a.Ok? ==> k in table
    {
      a := answers(|log|);
      log := log + [Add(k)];
      if a.Ok? || ((a.Error? || a.Raised?) && a.applied) {
        table := table + {k};
      }
    }

    /** get_contact_by_key_prefix */
    method Lookup(p: Key) returns (hit: Option<Key>)
      ensures hit.None? ==> forall l :: l in library ==> !(p <= l)
      ensures hit.Some? ==> hit.value in library && p <= hit.value
    {
      hit := None;
      var rest := library;
      while rest != {}
        invariant rest <= library
        invariant forall l :: l in library && l !in rest ==> !(p <= l)
        decreases |rest|
      {
        var l :| l in rest;
        if p <= l {
          return Some(l);
        }
        rest := rest - {l};
      }
    }

    ghost function DroppedSince(from: nat): set<Key>
      reads this
    {
      Dropped(log, answers, from)
    }

    ghost function LoadedSince(from: nat): set<Key>
      reads this
    {
      Loaded(log, answers, from)
    }

    ghost function RefusalsSince(from: nat): nat
      reads this
    {
      Refusals(log, answers, from)
    }

    /**
     Exactly what is believed: the initial contacts without the dropped ones, the loaded ones, and
     those taken as present because the library knew them.
     */
    ghost predicate Accounts(from: nat, initial: set<Key>, desired: set<Key>, taken: set<Key>, believed: set<Key>)
      reads this
    {
      && from <= |log|
      && DroppedSince(from) !! desired && LoadedSince(from) <= desired && taken <= desired * library
      && believed == Held(initial, DroppedSince(from), LoadedSince(from), taken)
    }

    /** What the app and the library believe about desired contacts is true. */
    ghost predicate Truthful(believed: set<Key>, desired: set<Key>)
      reads this
    {
      (believed + library) * desired <= table
    }
  }

  ghost predicate Allowed(c: Command, unwanted: set<Key>, missing: set<Key>, library: set<Key>)
  {
    if c.Remove? then c.key in unwanted else c.key in missing && c.key !in library
  }

  /** Only unwanted contacts are removed, and only missing ones the library does not know are added. */
  ghost predicate Proper(log: seq<Command>, from: nat, unwanted: set<Key>, missing: set<Key>, library: set<Key>)
  {
    forall i :: from <= i < |log| ==> Allowed(log[i], unwanted, missing, library)
  }

  lemma ProperGrows(log: seq<Command>, c: Command, from: nat, unwanted: set<Key>, missing: set<Key>, library: set<Key>)
    requires Proper(log, from, unwanted, missing, library)
    requires Allowed(c, unwanted, missing, library)
    ensures Proper(log + [c], from, unwanted, missing, library)
  {
  }

  ghost predicate OnlyRemoves(log: seq<Command>, from: nat)
  {
    forall i :: from <= i < |log| ==> log[i].Remove?
  }

  /** What the library knows about desired contacts is the same. */
  ghost predicate SameKnown(library: set<Key>, library': set<Key>, desired: set<Key>)
  {
    forall k :: k in desired ==> (k in library <==> k in library')
  }

  // ---------------------------------------------------------------------------------------------
  // Phase one of a lock hold

  /** One removal command and what the loop makes of the answer. */
  method RemoveOne(radio: Radio, believed: set<Key>, desired: set<Key>, k: Key)
    returns (left: set<Key>)
    requires k in believed && k !in desired
    requires PrefixesUnique({k}, radio.library) && radio.Truthful(believed, desired)
    modifies radio`table, radio`library, radio`log
    ensures radio.log == old(radio.log) + [Remove(k)]
    ensures radio.library <= old(radio.library) && SameKnown(old(radio.library), radio.library, desired)
    ensures radio.Truthful(left, desired)
    ensures left == if Good(Remove(k), radio.answers(|old(radio.log)|)) then believed - {k} else believed
    ensures radio.library == old(radio.library) - (believed - left)
  {
    var hit := radio.Lookup(Prefix(k));
    var target := if hit.Some? then hit.value else k;
    var a := radio.RemoveContact(target);
    left := believed;
    if a.Ok? || a.NotFound? {
      left := believed - {k};
      radio.library := radio.library - {k};
    }
  }

  /** What one removal does to the account kept since some point of the log. */
  lemma RemovalAccounted(log: seq<Command>, answers: nat -> Answer, from: nat, initial: set<Key>, desired: set<Key>,
                         taken: set<Key>, believed: set<Key>, k: Key)
    requires from <= |log| && k in believed && k !in desired
    requires Dropped(log, answers, from) !! desired && Loaded(log, answers, from) <= desired && taken <= desired
    requires believed == Held(initial, Dropped(log, answers, from), Loaded(log, answers, from), taken)
    ensures var good := Good(Remove(k), answers(|log|)); var after := log + [Remove(k)];
      var left := if good then believed - {k} else believed;
      && Dropped(after, answers, from) !! desired && Loaded(after, answers, from) <= desired
      && left == Held(initial, Dropped(after, answers, from), Loaded(after, answers, from), taken)
      && |left - desired| + 1 + Refusals(log, answers, from) == |believed - desired| + Refusals(after, answers, from)
      && Refusals(log, answers, from) <= Refusals(after, answers, from)
  {
    OneAnswerMore(log, Remove(k), answers, from);
    HeldAfterDrop(initial, Dropped(log, answers, from), Loaded(log, answers, from), taken, k);
    OneLess(believed, desired, k);
  }

  lemma EvictedTwice(library: set<Key>, a: set<Key>, b: set<Key>, c: set<Key>)
    requires c <= b <= a
    ensures library - (a - b) - (b - c) == library - (a - c)
  {
  }

  /** One removal, with the account and the record of commands brought up to date. */
  method RemoveNext(radio: Radio, believed: set<Key>, desired: set<Key>, k: Key, ghost unwanted: set<Key>,
                    ghost base: nat, ghost from: nat, ghost initial: set<Key>, ghost taken: set<Key>)
    returns (left: set<Key>)
    requires k in believed && k !in desired && k in unwanted && PrefixesUnique({k}, radio.library)
    requires radio.Truthful(believed, desired) && radio.Accounts(from, initial, desired, taken, believed)
    requires Proper(radio.log, base, unwanted, {}, {})
    modifies radio`table, radio`library, radio`log
    ensures radio.library <= old(radio.library) && SameKnown(old(radio.library), radio.library, desired)
    ensures radio.Truthful(left, desired) && radio.Accounts(from, initial, desired, taken, left)
    ensures radio.log == old(radio.log) + [Remove(k)] && Proper(radio.log, base, unwanted, {}, {})
    ensures believed - {k} <= left <= believed
    ensures radio.library == old(radio.library) - (believed - left)
    ensures |left - desired| + 1 + old(radio.RefusalsSince(from)) == |believed - desired| + radio.RefusalsSince(from)
    ensures old(radio.RefusalsSince(from)) <= radio.RefusalsSince(from)
  {
    RemovalAccounted(radio.log, radio.answers, from, initial, desired, taken, believed, k);
    ProperGrows(radio.log, Remove(k), base, unwanted, {}, {});
    left := RemoveOne(radio, believed, desired, k);
  }

  lemma OneLess(s: set<Key>, minus: set<Key>, k: Key)
    requires k in s && k !in minus
    ensures s - {k} - minus == s - minus - {k} && |s - minus - {k}| == |s - minus| - 1
  {
  }

  /**
   Removes contacts nobody wants, in any order, while the budget lasts. Each success removes one; the
   phase ends with everything unwanted tried or the budget spent; failures still spend budget.
   */
  method RemovePhase(radio: Radio, believed: set<Key>, desired: set<Key>, budget0: nat,
                     ghost from: nat, ghost initial: set<Key>, ghost taken: set<Key>)
    returns (left: set<Key>, budget: nat)
    requires PrefixesUnique(believed, radio.library)
    requires radio.Truthful(believed, desired) && radio.Accounts(from, initial, desired, taken, believed)
    modifies radio`table, radio`library, radio`log
    ensures left <= believed && believed * desired <= left
    // A dropped contact leaves the library too.
    ensures radio.library == old(radio.library) - (believed - left)
    ensures radio.library <= old(radio.library) && SameKnown(old(radio.library), radio.library, desired)
    ensures radio.Truthful(left, desired) && radio.Accounts(from, initial, desired, taken, left)
    ensures old(radio.log) <= radio.log && budget + |radio.log| == budget0 + |old(radio.log)|
    ensures Proper(radio.log, |old(radio.log)|, believed - desired, {}, {})
    ensures |left - desired| + (budget0 - budget) + old(radio.RefusalsSince(from)) ==
      |believed - desired| + radio.RefusalsSince(from)
    ensures old(radio.RefusalsSince(from)) <= radio.RefusalsSince(from)
    ensures budget == 0 || budget0 - budget == |believed - desired|
  {
    left, budget := believed, budget0;
    var unwanted := believed - desired;
    var todo := unwanted;
    while todo != {} && budget > 0
      invariant todo <= unwanted && todo <= left && left <= believed && believed * desired <= left
      invariant radio.library == old(radio.library) - (believed - left)
      invariant |todo| + budget0 == |unwanted| + budget
      invariant radio.Truthful(left, desired) && radio.Accounts(from, initial, desired, taken, left)
      invariant old(radio.log) <= radio.log && budget + |radio.log| == budget0 + |old(radio.log)|
      invariant Proper(radio.log, |old(radio.log)|, unwanted, {}, {})
      invariant |left - desired| + (budget0 - budget) + old(radio.RefusalsSince(from)) ==
        |unwanted| + radio.RefusalsSince(from)
      invariant old(radio.RefusalsSince(from)) <= radio.RefusalsSince(from)
      decreases budget
    {
      var k :| k in todo;
      assert |todo - {k}| == |todo| - 1;
      ghost var before := left;
      left := RemoveNext(radio, left, desired, k, unwanted, |old(radio.log)|, from, initial, taken);
      EvictedTwice(old(radio.library), believed, before, left);
      todo, budget := todo - {k}, budget - 1;
    }
    EvictionKeepsKnown(old(radio.library), believed, left, desired);
  }

  lemma EvictionKeepsKnown(library: set<Key>, believed: set<Key>, left: set<Key>, desired: set<Key>)
    requires believed * desired <= left
    ensures SameKnown(library, library - (believed - left), desired)
  {
  }

  // ---------------------------------------------------------------------------------------------
  // Phase two

  /** One missing contact: taken as present if the library knows it, otherwise one add command. */
  method AddOne(radio: Radio, believed: set<Key>, desired: set<Key>, k: Key)
    returns (now: set<Key>, known: bool, tableFull: bool)
    requires k in desired - believed
    requires PrefixesUnique({k}, radio.library) && radio.Truthful(believed, desired)
    modifies radio`table, radio`log
    ensures radio.Truthful(now, desired)
    ensures known <==> k in radio.library
    ensures radio.log == if known then old(radio.log) else old(radio.log) + [Add(k)]
    ensures now == if known || radio.answers(|old(radio.log)|).Ok? then believed + {k} else believed
    ensures tableFull <==> !known && radio.answers(|old(radio.log)|).TableFull?
  {
    now, known, tableFull := believed, false, false;
    var hit := radio.Lookup(Prefix(k));
    if hit.Some? {
      now, known := now + {k}, true;
    } else {
      var a := radio.AddContact(k);
      if a.Ok? {
        now := now + {k};
      } else if a.TableFull? {
        tableFull := true;
      }
      assert k !in radio.library by {
        assert Prefix(k) <= k;
      }
    }
  }

  lemma AdditionAccounted(log: seq<Command>, answers: nat -> Answer, from: nat, initial: set<Key>, desired: set<Key>,
                          taken: set<Key>, believed: set<Key>, k: Key)
    requires from <= |log| && k in desired && k !in believed
    requires Dropped(log, answers, from) !! desired && Loaded(log, answers, from) <= desired
    requires believed == Held(initial, Dropped(log, answers, from), Loaded(log, answers, from), taken)
    ensures var good := answers(|log|).Ok?; var after := log + [Add(k)];
      var now := if good then believed + {k} else believed;
      && Dropped(after, answers, from) !! desired && Loaded(after, answers, from) <= desired
      && now == Held(initial, Dropped(after, answers, from), Loaded(after, answers, from), taken)
      && |desired - now| + 1 + Refusals(log, answers, from) == |desired - believed| + Refusals(after, answers, from)
      && Refusals(log, answers, from) <= Refusals(after, answers, from)
  {
    OneAnswerMore(log, Add(k), answers, from);
    HeldAfterLoad(initial, Dropped(log, answers, from), Loaded(log, answers, from), taken, k);
    OneMore(desired, believed, k);
  }

  /** The last command was an addition, answered that the table is full. */
  ghost predicate EndsFull(log: seq<Command>, answers: nat -> Answer, from: nat)
  {
    |log| > from && log[|log| - 1].Add? && answers(|log| - 1).TableFull?
  }

  lemma EndsFullNow(log: seq<Command>, k: Key, answers: nat -> Answer, from: nat)
    requires from <= |log|
    ensures EndsFull(log + [Add(k)], answers, from) <==> answers(|log|).TableFull?
  {
  }

  /** One addition, with the account and the record of commands brought up to date. */
  method AddNext(radio: Radio, believed: set<Key>, desired: set<Key>, k: Key, ghost missing: set<Key>,
                 ghost base: nat, ghost from: nat, ghost initial: set<Key>, ghost taken0: set<Key>)
    returns (now: set<Key>, known: bool, tableFull: bool, ghost taken: set<Key>)
    requires k in desired - believed && k in missing && PrefixesUnique({k}, radio.library)
    requires radio.Truthful(believed, desired) && radio.Accounts(from, initial, desired, taken0, believed)
    requires Proper(radio.log, base, {}, missing, radio.library)
    requires base <= |radio.log| && !EndsFull(radio.log, radio.answers, base)
    modifies radio`table, radio`log
    ensures radio.Truthful(now, desired) && radio.Accounts(from, initial, desired, taken, now)
    ensures radio.log == (if known then old(radio.log) else old(radio.log) + [Add(k)])
    ensures Proper(radio.log, base, {}, missing, radio.library)
    ensures believed <= now <= believed + {k}
    ensures |desired - now| + 1 + old(radio.RefusalsSince(from)) == |desired - believed| + radio.RefusalsSince(from)
    ensures old(radio.RefusalsSince(from)) <= radio.RefusalsSince(from)
    ensures tableFull <==> EndsFull(radio.log, radio.answers, base)
    ensures tableFull ==> k !in now
  {
    if k in radio.library {
      HeldAfterLoad(initial, radio.DroppedSince(from), radio.LoadedSince(from), taken0, k);
      OneMore(desired, believed, k);
    } else {
      AdditionAccounted(radio.log, radio.answers, from, initial, desired, taken0, believed, k);
      EndsFullNow(radio.log, k, radio.answers, base);
      ProperGrows(radio.log, Add(k), base, {}, missing, radio.library);
    }
    now, known, tableFull := AddOne(radio, believed, desired, k);
    taken := if known then taken0 + {k} else taken0;
  }

  lemma OneMore(s: set<Key>, minus: set<Key>, k: Key)
    requires k in s && k !in minus
    ensures s - (minus + {k}) == s - minus - {k} && |s - minus - {k}| == |s - minus| - 1
  {
  }

  /**
   Loads desired contacts that are missing, in any order. A contact the library already knows is taken
   as present without a command; a full table stops the phase.
   */
  method AddPhase(radio: Radio, believed: set<Key>, desired: set<Key>, budget0: nat,
                  ghost from: nat, ghost initial: set<Key>, ghost taken0: set<Key>)
    returns (now: set<Key>, tableFull: bool, budget: nat, ghost taken: set<Key>, ghost free: nat)
    requires PrefixesUnique(desired, radio.library)
    requires radio.Truthful(believed, desired) && radio.Accounts(from, initial, desired, taken0, believed)
    modifies radio`table, radio`log
    ensures believed <= now <= believed + desired
    ensures radio.Truthful(now, desired) && radio.Accounts(from, initial, desired, taken, now)
    ensures old(radio.log) <= radio.log && budget + |radio.log| == budget0 + |old(radio.log)|
    ensures Proper(radio.log, |old(radio.log)|, {}, desired - believed, radio.library)
    ensures |desired - now| + (budget0 - budget) + free + old(radio.RefusalsSince(from)) ==
      |desired - believed| + radio.RefusalsSince(from)
    ensures old(radio.RefusalsSince(from)) <= radio.RefusalsSince(from)
    ensures budget == 0 || tableFull || (budget0 - budget) + free == |desired - believed|
    ensures tableFull <==> EndsFull(radio.log, radio.answers, |old(radio.log)|)
    ensures tableFull ==> desired - now != {}
  {
    now, tableFull, budget, taken, free := believed, false, budget0, taken0, 0;
    var missing := desired - believed;
    var todo := missing;
    while todo != {} && budget > 0 && !tableFull
      invariant todo <= missing && todo !! now && believed <= now <= believed + desired
      invariant |todo| + budget0 + free == |missing| + budget
      invariant radio.Truthful(now, desired) && radio.Accounts(from, initial, desired, taken, now)
      invariant old(radio.log) <= radio.log && budget + |radio.log| == budget0 + |old(radio.log)|
      invariant Proper(radio.log, |old(radio.log)|, {}, missing, radio.library)
      invariant |desired - now| + (budget0 - budget) + free + old(radio.RefusalsSince(from)) ==
        |missing| + radio.RefusalsSince(from)
      invariant old(radio.RefusalsSince(from)) <= radio.RefusalsSince(from)
      invariant tableFull <==> EndsFull(radio.log, radio.answers, |old(radio.log)|)
      invariant tableFull ==> desired - now != {}
      decreases |todo|
    {
      var k :| k in todo;
      assert |todo - {k}| == |todo| - 1;
      var known: bool;
      now, known, tableFull, taken :=
        AddNext(radio, now, desired, k, missing, |old(radio.log)|, from, initial, taken);
      assert tableFull ==> k in desired - now;
      todo := todo - {k};
      if known {
        free := free + 1;
      } else {
        budget := budget - 1;
      }
    }
  }

  // ---------------------------------------------------------------------------------------------
  // One lock hold

  /** Additions only, so nothing unwanted appears and the unwanted part stays. */
  lemma AddingKeepsSurplus(left: set<Key>, now: set<Key>, desired: set<Key>)
    requires left <= now <= left + desired
    ensures now - desired == left - desired && desired - now <= desired - left
    ensures forall believed :: left <= believed && believed * desired <= left ==> believed - now == believed - left
  {
  }

  lemma RemovingKeepsDeficit(believed: set<Key>, left: set<Key>, desired: set<Key>)
    requires left <= believed && believed * desired <= left
    ensures desired - left == desired - believed && left - desired <= believed - desired
  {
  }

  lemma ProperJoins(log: seq<Command>, mid: nat, log': seq<Command>, from: nat,
                    unwanted: set<Key>, missing: set<Key>, library: set<Key>)
    requires from <= mid == |log| && log <= log'
    requires Proper(log, from, unwanted, missing, library) && Proper(log', mid, unwanted, missing, library)
    ensures Proper(log', from, unwanted, missing, library)
  {
    forall i | from <= i < |log'|
      ensures Allowed(log'[i], unwanted, missing, library)
    {
      if i < mid {
        assert log'[i] == log[i];
      }
    }
  }

  lemma ProperWidens(log: seq<Command>, from: nat, unwanted: set<Key>, missing: set<Key>, library: set<Key>,
                     unwanted': set<Key>, missing': set<Key>, library': set<Key>)
    requires Proper(log, from, unwanted, missing, library)
    requires unwanted <= unwanted' && missing <= missing' && SameKnown(library, library', missing)
    ensures Proper(log, from, unwanted', missing', library')
  {
  }

  /** Removals alone do not end in a full table. */
  lemma StillEndsFull(mid: seq<Command>, log: seq<Command>, answers: nat -> Answer, from: nat)
    requires from <= |mid| && mid <= log && OnlyRemoves(mid, from)
    ensures EndsFull(log, answers, |mid|) <==> EndsFull(log, answers, from)
  {
    if |log| == |mid| {
      assert log == mid;
    }
  }

  /**
   One lock hold of the normal mode. `free` counts the contacts taken from the library without a
   command. Every command closes one difference or is refused, and the hold ends with both commands
   spent, a full table, or every difference tried.
   */
  method Batch(radio: Radio, believed: set<Key>, desired: set<Key>,
               ghost from: nat, ghost initial: set<Key>, ghost taken0: set<Key>)
    returns (now: set<Key>, tableFull: bool, ghost taken: set<Key>, ghost free: nat)
    requires PrefixesUnique(believed + desired, radio.library)
    requires radio.Truthful(believed, desired) && radio.Accounts(from, initial, desired, taken0, believed)
    modifies radio`table, radio`library, radio`log
    ensures radio.library == old(radio.library) - (believed - now)
    ensures radio.library <= old(radio.library) && SameKnown(old(radio.library), radio.library, desired)
    ensures radio.Truthful(now, desired) && radio.Accounts(from, initial, desired, taken, now)
    ensures believed * desired <= now && (tableFull ==> desired - now != {})
    ensures old(radio.log) <= radio.log && |radio.log| <= |old(radio.log)| + BATCH_SIZE
    // Only unwanted contacts are removed; only missing ones the library does not know are added.
    ensures Proper(radio.log, |old(radio.log)|, believed - desired, desired - believed, radio.library)
    // The difference between belief and goal only shrinks, as a set, and by exactly this much.
    ensures now - desired <= believed - desired && desired - now <= desired - believed
    ensures Gap(now, desired) + (|radio.log| - |old(radio.log)|) + free + old(radio.RefusalsSince(from)) ==
      Gap(believed, desired) + radio.RefusalsSince(from)
    ensures old(radio.RefusalsSince(from)) <= radio.RefusalsSince(from)
    ensures tableFull || |radio.log| == |old(radio.log)| + BATCH_SIZE ||
      |radio.log| - |old(radio.log)| + free == Gap(believed, desired)
    ensures tableFull <==> EndsFull(radio.log, radio.answers, |old(radio.log)|)
    // While two unwanted contacts remain the whole hold goes to removals.
    ensures |now - desired| >= BATCH_SIZE ==> OnlyRemoves(radio.log, |old(radio.log)|) && taken == taken0
  {
    var left, budget := RemovePhase(radio, believed, desired, BATCH_SIZE, from, initial, taken0);
    RemovingKeepsDeficit(believed, left, desired);
    ghost var mid := radio.log;
    assert OnlyRemoves(mid, |old(radio.log)|);
    SubsetSize(left - desired, believed - desired);
    now, tableFull, taken, free := left, false, taken0, 0;
    ProperWidens(mid, |old(radio.log)|, believed - desired, {}, {},
      believed - desired, desired - believed, radio.library);
    if budget > 0 {
      now, tableFull, budget, taken, free := AddPhase(radio, left, desired, budget, from, initial, taken0);
      AddingKeepsSurplus(left, now, desired);
      assert |now - desired| < BATCH_SIZE;
      StillEndsFull(mid, radio.log, radio.answers, |old(radio.log)|);
      ProperWidens(radio.log, |mid|, {}, desired - left, radio.library,
        believed - desired, desired - believed, radio.library);
      ProperJoins(mid, |mid|, radio.log, |old(radio.log)|, believed - desired, desired - believed, radio.library);
    }
  }

  // ---------------------------------------------------------------------------------------------
  // The loop

  /** What a round of the outer loop meets: the lock is granted or busy, or the transport was swapped. */
  datatype Round = Proceed | Busy | Swapped | SwappedInLock

  datatype Exit = Complete | TransportChanged | ContactTableFull | StillRunning

  ghost predicate Undisturbed(env: seq<Round>, rounds: nat)
    requires rounds <= |env|
  {
    rounds == 0 || (Undisturbed(env, rounds - 1) && (env[rounds - 1].Proceed? || env[rounds - 1].Busy?))
  }

  /** Rounds in which the loop gets the radio. */
  ghost function Proceeds(env: seq<Round>, rounds: nat): nat
    requires rounds <= |env|
  {
    if rounds == 0 then 0 else Proceeds(env, rounds - 1) + (if env[rounds - 1].Proceed? then 1 else 0)
  }

  function ReasonToStop(round: Round, reached: bool): Exit
  {
    if round.Swapped? then TransportChanged
    else if reached then Complete
    else if round.SwappedInLock? then TransportChanged
    else ContactTableFull
  }

  /**
   The round the loop stopped in, and why: every round before it was undisturbed; a swap seen first
   stops it, else a goal already reached completes it, else a swap seen inside the lock stops it, else
   it had its turn and met a full table.
   */
  ghost predicate StoppedRightly(exit: Exit, stopped: nat, env: seq<Round>, reached: bool)
  {
    && stopped <= |env| && Undisturbed(env, stopped) && (exit.StillRunning? <==> stopped == |env|)
    && (stopped < |env| ==> exit == ReasonToStop(env[stopped], reached))
  }

  /** p holds have sent at most 2 * p commands, and each closed a difference or met a refusal. */
  ghost predicate Progress(p: nat, sent: nat, gap0: nat, gap: nat, refusals: nat)
  {
    && sent <= 2 * p && p + gap <= gap0 + refusals
    && (refusals == 0 ==> 2 * p <= gap0 + 1 && (gap == 0 || gap + 2 * p <= gap0))
  }

  lemma ProgressStep(p: nat, sent: nat, gap0: nat, gap: nat, refusals: nat, c: nat, free: nat, gap': nat,
                     refusals': nat)
    requires Progress(p, sent, gap0, gap, refusals) && gap > 0 && refusals <= refusals'
    requires gap' + c + free + refusals == gap + refusals' && (c == 2 || (c < 2 && c + free == gap))
    ensures Progress(p + 1, sent + c, gap0, gap', refusals')
  {
  }

  /** So a loop that is still running has not had enough rounds. */
  lemma EnoughRounds(p: nat, sent: nat, gap0: nat, gap: nat, refusals: nat)
    requires Progress(p, sent, gap0, gap, refusals)
    ensures p < gap0 + refusals + 1 && (refusals == 0 ==> 2 * p < gap0 + 2)
  {
  }

  /** Every contact of the difference was settled: dropped, loaded, or taken from the library. */
  ghost predicate Settled(radio: Radio, from: nat, initial: set<Key>, desired: set<Key>, taken: set<Key>)
    reads radio
  {
    initial - desired <= radio.DroppedSince(from) && desired - initial <= radio.LoadedSince(from) + taken
  }

  lemma SettledExactly(radio: Radio, from: nat, initial: set<Key>, desired: set<Key>, taken: set<Key>,
                       believed: set<Key>)
    requires radio.Accounts(from, initial, desired, taken, believed)
    ensures believed == desired <==> Settled(radio, from, initial, desired, taken)
    ensures forall k :: k in initial - desired ==> (k in believed <==> k !in radio.DroppedSince(from))
    ensures forall k :: k in desired - initial ==> (k in believed <==> k in radio.LoadedSince(from) + taken)
  {
    if Settled(radio, from, initial, desired, taken) {
      forall k
        ensures k in believed <==> k in desired
      {
        if k in initial && k !in desired {
          assert k in initial - desired;
        }
        if k in desired && k !in initial {
          assert k in desired - initial;
        }
      }
    }
  }

  lemma StillNotFull(before: seq<Command>, log: seq<Command>, answers: nat -> Answer, from: nat)
    requires from <= |before| && before <= log && !EndsFull(before, answers, from)
    ensures EndsFull(log, answers, from) <==> EndsFull(log, answers, |before|)
  {
    if |log| == |before| {
      assert log == before;
    }
  }

  lemma OnlyRemovesJoins(before: seq<Command>, log: seq<Command>, from: nat)
    requires from <= |before| && before <= log && OnlyRemoves(before, from) && OnlyRemoves(log, |before|)
    ensures OnlyRemoves(log, from)
  {
    forall i | from <= i < |log|
      ensures log[i].Remove?
    {
      if i < |before| {
        assert log[i] == before[i];
      }
    }
  }

  /** What left the library since the start is what was dropped since. */
  lemma EvictedSince(library0: set<Key>, initial: set<Key>, believed: set<Key>, now: set<Key>, desired: set<Key>)
    requires initial * desired <= believed && believed * desired <= now
    requires believed - desired <= initial - desired && now - desired <= believed - desired
    ensures library0 - (initial - believed) - (believed - now) == library0 - (initial - now)
    ensures initial * desired <= now
  {
    BelievedOrWanted(initial, believed, desired);
    BelievedOrWanted(believed, now, desired);
    assert initial - now == (initial - believed) + (believed - now);
  }

  lemma BelievedOrWanted(a: set<Key>, b: set<Key>, desired: set<Key>)
    requires b - desired <= a - desired
    ensures b <= a + desired
  {
    forall k | k in b && k !in desired
      ensures k in a
    {
      assert k in b - desired;
    }
  }

  lemma ShrinkingKeepsUnique(believed: set<Key>, now: set<Key>, desired: set<Key>, library: set<Key>,
                             library': set<Key>)
    requires PrefixesUnique(believed + desired, library) && now - desired <= believed - desired && library' <= library
    ensures PrefixesUnique(now + desired, library')
  {
    forall k | k in now + desired
      ensures k in believed + desired
    {
      if k !in desired {
        assert k in now - desired;
      }
    }
  }

  /** What the loop knows at the top of a round. */
  ghost predicate Sane(radio: Radio, start: seq<Command>, library0: set<Key>, initial: set<Key>, desired: set<Key>,
                       taken: set<Key>, believed: set<Key>)
    reads radio
  {
    && PrefixesUnique(believed + desired, radio.library) && radio.Truthful(believed, desired)
    && radio.Accounts(|start|, initial, desired, taken, believed)
    && radio.library <= library0 && SameKnown(library0, radio.library, desired)
    && initial * desired <= believed && radio.library == library0 - (initial - believed)
    && start <= radio.log
    && Proper(radio.log, |start|, initial - desired, desired - initial, radio.library)
    && believed - desired <= initial - desired && desired - believed <= desired - initial
    && (|believed - desired| >= BATCH_SIZE ==> OnlyRemoves(radio.log, |start|) && taken == {})
  }

  /** One round that gets the radio. */
  method TakeTurn(radio: Radio, believed: set<Key>, desired: set<Key>, ghost start: seq<Command>,
                  ghost library0: set<Key>, ghost initial: set<Key>, ghost taken0: set<Key>, ghost p: nat)
    returns (now: set<Key>, tableFull: bool, ghost taken: set<Key>)
    requires Sane(radio, start, library0, initial, desired, taken0, believed) && Gap(believed, desired) > 0
    requires !EndsFull(radio.log, radio.answers, |start|)
    requires Progress(p, |radio.log| - |start|, Gap(initial, desired), Gap(believed, desired),
      radio.RefusalsSince(|start|))
    modifies radio`table, radio`library, radio`log
    ensures Sane(radio, start, library0, initial, desired, taken, now)
    ensures tableFull <==> EndsFull(radio.log, radio.answers, |start|)
    ensures tableFull ==> now != desired
    ensures |radio.log| <= |old(radio.log)| + BATCH_SIZE
    ensures !tableFull ==>
      Progress(p + 1, |radio.log| - |start|, Gap(initial, desired), Gap(now, desired), radio.RefusalsSince(|start|))
  {
    ghost var log, library := radio.log, radio.library;
    ghost var free;
    now, tableFull, taken, free := Batch(radio, believed, desired, |start|, initial, taken0);
    StillNotFull(log, radio.log, radio.answers, |start|);
    EvictedSince(library0, initial, believed, now, desired);
    ShrinkingKeepsUnique(believed, now, desired, library, radio.library);
    ProperWidens(log, |start|, initial - desired, desired - initial, library,
      initial - desired, desired - initial, radio.library);
    ProperWidens(radio.log, |log|, believed - desired, desired - believed, radio.library,
      initial - desired, desired - initial, radio.library);
    ProperJoins(log, |log|, radio.log, |start|, initial - desired, desired - initial, radio.library);
    if |now - desired| >= BATCH_SIZE {
      SubsetSize(now - desired, believed - desired);
      OnlyRemovesJoins(log, radio.log, |start|);
    }
    if !tableFull {
      ProgressStep(p, |log| - |start|, Gap(initial, desired), Gap(believed, desired), old(radio.RefusalsSince(|start|)),
        |radio.log| - |log|, free, Gap(now, desired), radio.RefusalsSince(|start|));
    }
  }

  lemma GapOpen(a: set<Key>, b: set<Key>)
    ensures Gap(a, b) == 0 <==> a == b
  {
    if a - b == {} && b - a == {} {
      forall k
        ensures k in a <==> k in b
      {
        assert k !in a - b && k !in b - a;
      }
    }
  }

  lemma SaneAtStart(radio: Radio, initial: set<Key>, desired: set<Key>)
    requires PrefixesUnique(initial + desired, radio.library) && radio.Truthful(initial, desired)
    ensures Sane(radio, radio.log, radio.library, initial, desired, {}, initial)
    ensures radio.RefusalsSince(|radio.log|) == 0
  {
    assert initial == Held(initial, {}, {}, {});
  }

  /**
   The normal-mode loop for a fixed desired set, watched for any number of rounds and against any
   radio, busy lock or transport swap. `taken` holds the missing contacts taken as present because the
   library knew them.
   */
  method Reconcile(radio: Radio, initial: set<Key>, desired: set<Key>, env: seq<Round>)
    returns (exit: Exit, believed: set<Key>, ghost taken: set<Key>, ghost stopped: nat)
    requires PrefixesUnique(initial + desired, radio.library) && radio.Truthful(initial, desired)
    modifies radio`table, radio`library, radio`log
    // What is believed follows exactly from the answers, contact by contact; the difference only shrinks;
    // while two unwanted contacts remain, no command was an addition.
    ensures Sane(radio, old(radio.log), old(radio.library), initial, desired, taken, believed)
    // It stops in the first round that gives a reason, and every exit has exactly its own causes.
    ensures StoppedRightly(exit, stopped, env, believed == desired)
    // At most two commands for each round that got the radio up to then, the last one only if it met a full table.
    ensures |radio.log| <= |old(radio.log)| +
      2 * (if exit.ContactTableFull? then Proceeds(env, stopped) + 1 else Proceeds(env, stopped))
    ensures |radio.log| <= |old(radio.log)| + 2 * Proceeds(env, |env|)
    // So a swap at the top of any round stops it by then, with nothing sent from that round on.
    ensures forall r: nat :: r < |env| && env[r].Swapped? ==>
      !exit.StillRunning? && stopped <= r && |radio.log| <= |old(radio.log)| + 2 * Proceeds(env, r)
    // Belief reaches the goal exactly when every contact of the difference is settled, and "complete"
    // is truthful.
    ensures believed == desired <==> Settled(radio, |old(radio.log)|, initial, desired, taken)
    ensures exit.Complete? ==> believed == desired && desired <= radio.table
    ensures exit.ContactTableFull? <==> EndsFull(radio.log, radio.answers, |old(radio.log)|)
    ensures exit.TransportChanged? ==> !Undisturbed(env, |env|)
    // One round per difference and refusal, plus the one that notices, is enough; with no refusal, half.
    ensures Undisturbed(env, |env|) && !exit.ContactTableFull? ==>
      (Gap(initial, desired) + radio.RefusalsSince(|old(radio.log)|) + 1 <= Proceeds(env, |env|) ==> exit.Complete?)
    ensures Undisturbed(env, |env|) && radio.RefusalsSince(|old(radio.log)|) == 0 ==>
      (Gap(initial, desired) + 2 <= 2 * Proceeds(env, |env|) ==> exit.Complete?)
    // Two unwanted contacts, no removal of which succeeds, keep the loop running without any addition.
    ensures Undisturbed(env, |env|) && radio.DroppedSince(|old(radio.log)|) == {} && |initial - desired| >= 2 ==>
      exit.StillRunning? && believed == initial && OnlyRemoves(radio.log, |old(radio.log)|)
  {
    SaneAtStart(radio, initial, desired);
    ghost var start, p := radio.log, 0;
    exit, believed, taken, p, stopped := Watch(radio, initial, desired, env);
    SwapsStop(exit, stopped, env, believed == desired, p);
    if !exit.ContactTableFull? {
      InTime(exit, stopped, env, believed == desired, p, |radio.log| - |start|, Gap(initial, desired),
        Gap(believed, desired), radio.RefusalsSince(|start|));
    } else {
      FullIsRefused(radio.log, radio.answers, |start|);
    }
    SettledExactly(radio, |start|, initial, desired, taken, believed);
    if radio.DroppedSince(|start|) == {} && |initial - desired| >= 2 {
      Starved(radio, |start|, initial, desired, taken, believed);
    }
  }

  lemma {:induction false} RefusalsAtMost(log: seq<Command>, answers: nat -> Answer, from: nat, n: nat)
    requires forall i: nat :: i >= from + n ==> answers(i).Ok?
    ensures Refusals(log, answers, from) <= n && (|log| >= from ==> Refusals(log, answers, from) <= |log| - from)
  {
    if |log| > from {
      RefusalsAtMost(log[..|log| - 1], answers, from, n);
    }
  }

  /**
   The same from what is known of the radio beforehand: it may refuse its first n commands in any way
   but a full table and accepts all later ones. Then gap + n + 1 rounds are enough.
   */
  method ReconcileCooperating(radio: Radio, initial: set<Key>, desired: set<Key>, env: seq<Round>,
                              ghost n: nat)
    returns (exit: Exit, believed: set<Key>)
    requires PrefixesUnique(initial + desired, radio.library) && radio.Truthful(initial, desired)
    requires forall i: nat :: i >= |radio.log| + n ==> radio.answers(i).Ok?
    requires forall i: nat :: i >= |radio.log| ==> !radio.answers(i).TableFull?
    requires Undisturbed(env, |env|) && Gap(initial, desired) + n + 1 <= Proceeds(env, |env|)
    modifies radio`table, radio`library, radio`log
    ensures exit.Complete? && believed == desired && desired <= radio.table
  {
    ghost var start := |radio.log|;
    ghost var taken: set<Key>;
    ghost var stopped: nat;
    exit, believed, taken, stopped := Reconcile(radio, initial, desired, env);
    RefusalsAtMost(radio.log, radio.answers, start, n);
  }

  /** With nothing dropped the unwanted contacts are all still there, so no addition had its turn. */
  lemma Starved(radio: Radio, from: nat, initial: set<Key>, desired: set<Key>, taken: set<Key>, believed: set<Key>)
    requires radio.Accounts(from, initial, desired, taken, believed)
    requires |believed - desired| >= BATCH_SIZE ==> OnlyRemoves(radio.log, from) && taken == {}
    requires radio.DroppedSince(from) == {} && |initial - desired| >= 2
    ensures believed == initial && OnlyRemoves(radio.log, from) && !EndsFull(radio.log, radio.answers, from)
    ensures believed != desired
  {
    SubsetSize(initial - desired, believed - desired);
    RemovesLoadNothing(radio.log, radio.answers, from);
  }

  lemma {:induction false} RemovesLoadNothing(log: seq<Command>, answers: nat -> Answer, from: nat)
    requires OnlyRemoves(log, from)
    ensures Loaded(log, answers, from) == {}
  {
    if |log| > from {
      RemovesLoadNothing(log[..|log| - 1], answers, from);
    }
  }

  /** Nothing is left to send: what was to go is gone, and what is missing the library knows. */
  ghost predicate NeedsNoCommand(radio: Radio, from: nat, initial: set<Key>, desired: set<Key>)
    reads radio
  {
    initial - desired <= radio.DroppedSince(from) && desired - initial <= radio.LoadedSince(from) + radio.library
  }

  lemma NeedsNoCommandMeans(radio: Radio, from: nat, initial: set<Key>, desired: set<Key>, taken: set<Key>,
                            believed: set<Key>)
    requires radio.Accounts(from, initial, desired, taken, believed) && NeedsNoCommand(radio, from, initial, desired)
    ensures believed - desired == {} && desired - believed <= radio.library
  {
    forall k
      ensures k in believed - desired ==> k in initial - desired
      ensures k in desired - believed ==> k in desired - initial
    {
    }
  }

  lemma NeverAllowed(c: Command, missing: set<Key>, library: set<Key>)
    requires missing <= library
    ensures !Allowed(c, {}, missing, library)
  {
  }

  lemma NothingSent(log: seq<Command>, from: nat, missing: set<Key>, library: set<Key>)
    requires Proper(log, from, {}, missing, library) && missing <= library
    ensures |log| <= from
  {
    if |log| > from {
      NeverAllowed(log[from], missing, library);
      assert false;
    }
  }

  /** The record of a log is the record of its two parts. */
  lemma {:induction false} SeamSplit(mid: seq<Command>, log: seq<Command>, answers: nat -> Answer, from: nat)
    requires from <= |mid| && mid <= log
    ensures Dropped(log, answers, from) == Dropped(mid, answers, from) + Dropped(log, answers, |mid|)
    ensures Loaded(log, answers, from) == Loaded(mid, answers, from) + Loaded(log, answers, |mid|)
    decreases |log|
  {
    if |log| == |mid| {
      assert log == mid;
    } else {
      SeamSplit(mid, log[..|log| - 1], answers, from);
    }
  }

  /** A goal reached in the second stretch leaves nothing to send, counted from the start of the first. */
  lemma SettledAcross(initial: set<Key>, desired: set<Key>, d1: set<Key>, l1: set<Key>, t1: set<Key>,
                      d2: set<Key>, l2: set<Key>, library: set<Key>)
    requires t1 * desired <= library
    requires Held(initial, d1, l1, t1) - desired <= d2 && desired - Held(initial, d1, l1, t1) <= l2 + library
    ensures initial - desired <= d1 + d2 && desired - initial <= l1 + l2 + library
  {
    forall k
      ensures k in initial - desired && k !in d1 ==> k in Held(initial, d1, l1, t1) - desired
      ensures k in desired - initial && k !in l1 + t1 ==> k in desired - Held(initial, d1, l1, t1)
    {
    }
  }

  lemma GapShrinks(initial: set<Key>, now: set<Key>, desired: set<Key>)
    requires now - desired <= initial - desired && desired - now <= desired - initial
    ensures Gap(now, desired) <= Gap(initial, desired)
  {
    SubsetSize(now - desired, initial - desired);
    SubsetSize(desired - now, desired - initial);
  }

  /**
   The loop watched in two stretches, whatever the radio and the lock did in the first: a radio that
   cooperates from the seam on is enough for completion.
   */
  method ReconcileInStretches(radio: Radio, initial: set<Key>, desired: set<Key>,
                              env: seq<Round>, env': seq<Round>)
    returns (first: Exit, exit: Exit, believed: set<Key>, ghost seam: nat)
    requires PrefixesUnique(initial + desired, radio.library) && radio.Truthful(initial, desired)
    modifies radio`table, radio`library, radio`log
    ensures old(radio.log) <= radio.log && |old(radio.log)| <= seam <= |old(radio.log)| + 2 * Proceeds(env, |env|)
    ensures seam <= |radio.log| <= seam + 2 * Proceeds(env', |env'|)
    ensures first.TransportChanged? ==> !Undisturbed(env, |env|)
    ensures !first.StillRunning? ==> exit == first && seam == |radio.log|
    ensures first.StillRunning? && Undisturbed(env', |env'|) && radio.RefusalsSince(seam) == 0 ==>
      (Gap(initial, desired) + 2 <= 2 * Proceeds(env', |env'|) ==> exit.Complete?)
    ensures exit.Complete? ==> NeedsNoCommand(radio, |old(radio.log)|, initial, desired) && desired <= radio.table
  {
    ghost var start := |radio.log|;
    ghost var taken: set<Key>;
    ghost var stopped: nat;
    first, believed, taken, stopped := Reconcile(radio, initial, desired, env);
    seam, exit := |radio.log|, first;
    if first.StillRunning? {
      exit, believed := ReconcileResumed(radio, initial, believed, desired, env', start, taken);
    }
  }

  /**
   The loop resumed from any state it can be in, with the account of everything since `start`.
   With enough rounds, cooperation from now on or nothing left to send means completion; completion
   means that nothing was left to send. So the loop completes exactly when every contact of the
   difference is at some point dropped, loaded or known to the library.
   */
  method ReconcileResumed(radio: Radio, ghost initial: set<Key>, middle: set<Key>, desired: set<Key>,
                          env: seq<Round>, ghost start: nat, ghost taken: set<Key>)
    returns (exit: Exit, believed: set<Key>)
    requires PrefixesUnique(middle + desired, radio.library) && radio.Truthful(middle, desired)
    requires radio.Accounts(start, initial, desired, taken, middle)
    requires middle - desired <= initial - desired && desired - middle <= desired - initial
    modifies radio`table, radio`library, radio`log
    ensures old(radio.log) <= radio.log && |radio.log| <= |old(radio.log)| + 2 * Proceeds(env, |env|)
    ensures old(NeedsNoCommand(radio, start, initial, desired)) ==> radio.log == old(radio.log)
    ensures Undisturbed(env, |env|) && Gap(initial, desired) + 2 <= 2 * Proceeds(env, |env|) ==>
      (old(NeedsNoCommand(radio, start, initial, desired)) || radio.RefusalsSince(|old(radio.log)|) == 0 ==>
        exit.Complete?)
    ensures exit.Complete? ==> NeedsNoCommand(radio, start, initial, desired) && desired <= radio.table
  {
    ghost var mid, d1, l1 := radio.log, radio.DroppedSince(start), radio.LoadedSince(start);
    ghost var quiet := NeedsNoCommand(radio, start, initial, desired);
    if quiet {
      NeedsNoCommandMeans(radio, start, initial, desired, taken, middle);
    }
    GapShrinks(initial, middle, desired);
    ghost var taken' : set<Key>;
    ghost var stopped: nat;
    exit, believed, taken', stopped := Reconcile(radio, middle, desired, env);
    SeamSplit(mid, radio.log, radio.answers, start);
    if quiet {
      NothingSent(radio.log, |mid|, desired - middle, radio.library);
    }
    if exit.Complete? {
      SettledAcross(initial, desired, d1, l1, taken,
        radio.DroppedSince(|mid|), radio.LoadedSince(|mid|), radio.library);
    }
  }

  /** The loop itself; p counts the rounds that got the radio. */
  method Watch(radio: Radio, initial: set<Key>, desired: set<Key>, env: seq<Round>)
    returns (exit: Exit, believed: set<Key>, ghost taken: set<Key>, ghost p: nat, stopped: nat)
    requires AtTop(radio, radio.log, radio.library, initial, desired, {}, initial, 0)
    modifies radio`table, radio`library, radio`log
    ensures Stops(exit, stopped, env, p, believed == desired)
    ensures AtExit(exit, radio, old(radio.log), old(radio.library), initial, desired, taken, believed, p)
  {
    believed, taken, p, stopped := initial, {}, 0, 0;
    ghost var start, library0 := radio.log, radio.library;
    var stop: Option<Exit> := None;
    while stop.None? && stopped < |env|
      invariant stopped <= |env| && Outcome(stop, stopped, env, p, believed == desired)
      invariant AtOutcome(stop, radio, start, library0, initial, desired, taken, believed, p)
      decreases |env| - stopped, stop.None?
    {
      stop, believed, taken, p, stopped :=
        NextRound(radio, env, stopped, believed, desired, start, library0, initial, taken, p);
    }
    if stop.None? {
      StopsNowhere(env, p, believed == desired);
    }
    exit := if stop.Some? then stop.value else StillRunning;
  }

  /** The rounds up to here: all passed, or the last one stopped the loop. */
  ghost predicate Outcome(stop: Option<Exit>, stopped: nat, env: seq<Round>, p: nat, reached: bool)
    requires stopped <= |env|
  {
    if stop.None? then Passed(env, stopped, p) else Stops(stop.value, stopped, env, p, reached)
  }

  ghost predicate AtOutcome(stop: Option<Exit>, radio: Radio, start: seq<Command>, library0: set<Key>,
                            initial: set<Key>, desired: set<Key>, taken: set<Key>, believed: set<Key>, p: nat)
    reads radio
  {
    if stop.None? then AtTop(radio, start, library0, initial, desired, taken, believed, p)
    else AtExit(stop.value, radio, start, library0, initial, desired, taken, believed, p)
  }

  /** A round counts when it got the radio and used its turn. */
  function Turns(round: Round, stop: Option<Exit>): nat
  {
    if round.Proceed? && (stop.None? || stop.value.ContactTableFull?) then 1 else 0
  }

  lemma OutcomeOf(stop: Option<Exit>, env: seq<Round>, r: nat, p: nat, reached: bool)
    requires r < |env| && Passed(env, r, p)
    requires if stop.None? then env[r].Proceed? || env[r].Busy? else stop.value == ReasonToStop(env[r], reached)
    requires stop == Some(ContactTableFull) ==> env[r].Proceed?
    ensures Outcome(stop, if stop.None? then r + 1 else r, env, p + Turns(env[r], stop), reached)
  {
    RoundPasses(env, r, p);
    if stop.Some? {
      StopsHere(stop.value, r, env, p, reached);
    }
  }

  /** One round more. */
  method NextRound(radio: Radio, env: seq<Round>, r: nat, believed: set<Key>, desired: set<Key>,
                   ghost start: seq<Command>, ghost library0: set<Key>, ghost initial: set<Key>,
                   ghost taken0: set<Key>, ghost p0: nat)
    returns (stop: Option<Exit>, now: set<Key>, ghost taken: set<Key>, ghost p: nat, next: nat)
    requires r < |env| && Passed(env, r, p0)
    requires AtTop(radio, start, library0, initial, desired, taken0, believed, p0)
    modifies radio`table, radio`library, radio`log
    ensures next == if stop.None? then r + 1 else r
    ensures Outcome(stop, next, env, p, now == desired)
    ensures AtOutcome(stop, radio, start, library0, initial, desired, taken, now, p)
  {
    stop, now, taken := OneRound(radio, env[r], believed, desired, start, library0, initial, taken0, p0);
    OutcomeOf(stop, env, r, p0, now == desired);
    p, next := p0 + Turns(env[r], stop), if stop.None? then r + 1 else r;
  }

  /** What holds at the top of a round, after p rounds that got the radio. */
  ghost predicate AtTop(radio: Radio, start: seq<Command>, library0: set<Key>, initial: set<Key>, desired: set<Key>,
                        taken: set<Key>, believed: set<Key>, p: nat)
    reads radio
  {
    && Sane(radio, start, library0, initial, desired, taken, believed)
    && !EndsFull(radio.log, radio.answers, |start|)
    && Progress(p, |radio.log| - |start|, Gap(initial, desired), Gap(believed, desired),
      radio.RefusalsSince(|start|))
  }

  /** What holds after the loop, by its exit. */
  ghost predicate AtExit(exit: Exit, radio: Radio, start: seq<Command>, library0: set<Key>, initial: set<Key>,
                         desired: set<Key>, taken: set<Key>, believed: set<Key>, p: nat)
    reads radio
  {
    if exit.ContactTableFull? then
      && Sane(radio, start, library0, initial, desired, taken, believed)
      && EndsFull(radio.log, radio.answers, |start|) && |radio.log| <= |start| + 2 * p
    else AtTop(radio, start, library0, initial, desired, taken, believed, p)
  }

  /** The first rounds were undisturbed, and p of them got the radio. */
  ghost predicate Passed(env: seq<Round>, stopped: nat, p: nat)
    requires stopped <= |env|
  {
    p == Proceeds(env, stopped) && Undisturbed(env, stopped)
  }

  /** The loop stopped rightly, after p rounds that got the radio. */
  ghost predicate Stops(exit: Exit, stopped: nat, env: seq<Round>, p: nat, reached: bool)
  {
    && StoppedRightly(exit, stopped, env, reached)
    && p == Proceeds(env, stopped) + (if exit.ContactTableFull? then 1 else 0)
    && (exit.ContactTableFull? ==> stopped < |env| && env[stopped].Proceed?)
  }

  lemma RoundPasses(env: seq<Round>, stopped: nat, p: nat)
    requires stopped < |env| && Passed(env, stopped, p)
    ensures env[stopped].Proceed? || env[stopped].Busy? ==>
      Passed(env, stopped + 1, if env[stopped].Proceed? then p + 1 else p)
  {
  }

  lemma StopsHere(exit: Exit, stopped: nat, env: seq<Round>, p: nat, reached: bool)
    requires stopped < |env| && Passed(env, stopped, p) && exit == ReasonToStop(env[stopped], reached)
    requires exit.ContactTableFull? ==> env[stopped].Proceed?
    ensures Stops(exit, stopped, env, if exit.ContactTableFull? then p + 1 else p, reached)
  {
  }

  lemma StopsNowhere(env: seq<Round>, p: nat, reached: bool)
    requires Passed(env, |env|, p)
    ensures Stops(StillRunning, |env|, env, p, reached)
  {
  }

  /** One round of the loop, and whether it is the last. */
  method OneRound(radio: Radio, round: Round, believed: set<Key>, desired: set<Key>, ghost start: seq<Command>,
                  ghost library0: set<Key>, ghost initial: set<Key>, ghost taken0: set<Key>, ghost p: nat)
    returns (stop: Option<Exit>, now: set<Key>, ghost taken: set<Key>)
    requires AtTop(radio, start, library0, initial, desired, taken0, believed, p)
    modifies radio`table, radio`library, radio`log
    ensures if stop.None? then round.Proceed? || round.Busy? else stop.value == ReasonToStop(round, now == desired)
    ensures stop == Some(ContactTableFull) ==> round.Proceed?
    ensures AtOutcome(stop, radio, start, library0, initial, desired, taken, now, p + Turns(round, stop))
  {
    GapOpen(believed, desired);
    stop, now, taken := None, believed, taken0;
    if round.Swapped? {
      stop := Some(TransportChanged);
    } else if believed - desired == {} && desired - believed == {} {
      stop := Some(Complete);
    } else if round.SwappedInLock? {
      stop := Some(TransportChanged);
    } else if round.Proceed? {
      var tableFull;
      now, tableFull, taken := TakeTurn(radio, believed, desired, start, library0, initial, taken0, p);
      if tableFull {
        stop := Some(ContactTableFull);
      }
    }
  }

  lemma {:induction false} ProceedsMonotone(env: seq<Round>, r: nat, rounds: nat)
    requires rounds <= |env| && r <= rounds
    ensures Proceeds(env, r) <= Proceeds(env, rounds)
  {
    if r < rounds {
      ProceedsMonotone(env, r, rounds - 1);
    }
  }

  lemma FullIsRefused(log: seq<Command>, answers: nat -> Answer, from: nat)
    requires EndsFull(log, answers, from)
    ensures Refusals(log, answers, from) > 0
  {
  }

  /** Undisturbed and with enough rounds, the loop completes. */
  lemma InTime(exit: Exit, stopped: nat, env: seq<Round>, reached: bool, p: nat, sent: nat, gap0: nat, gap: nat,
               refusals: nat)
    requires Stops(exit, stopped, env, p, reached) && !exit.ContactTableFull?
    requires Progress(p, sent, gap0, gap, refusals)
    ensures Undisturbed(env, |env|) && gap0 + refusals + 1 <= Proceeds(env, |env|) ==> exit.Complete?
    ensures Undisturbed(env, |env|) && refusals == 0 && gap0 + 2 <= 2 * Proceeds(env, |env|) ==> exit.Complete?
  {
    SwapsStop(exit, stopped, env, reached, p);
    EnoughRounds(p, sent, gap0, gap, refusals);
  }

  lemma {:induction false} UndisturbedAt(env: seq<Round>, rounds: nat, r: nat)
    requires r < rounds <= |env| && Undisturbed(env, rounds)
    ensures env[r].Proceed? || env[r].Busy?
  {
    if r < rounds - 1 {
      UndisturbedAt(env, rounds - 1, r);
    }
  }

  /** A swap at the top of a round stops the loop by then; p counts the rounds that sent anything. */
  lemma SwapsStop(exit: Exit, stopped: nat, env: seq<Round>, reached: bool, p: nat)
    requires Stops(exit, stopped, env, p, reached)
    ensures p <= Proceeds(env, |env|) && (exit.TransportChanged? ==> !Undisturbed(env, |env|))
    ensures forall r: nat :: r < |env| && env[r].Swapped? ==>
      !exit.StillRunning? && stopped <= r && p <= Proceeds(env, r)
  {
    ProceedsMonotone(env, stopped, |env|);
    if exit.ContactTableFull? {
      ProceedsMonotone(env, stopped + 1, |env|);
    }
    if exit.TransportChanged? && Undisturbed(env, |env|) {
      UndisturbedAt(env, |env|, stopped);
      assert false;
    }
    forall r: nat | r < |env| && env[r].Swapped?
      ensures !exit.StillRunning? && stopped <= r && p <= Proceeds(env, r)
    {
      if r < stopped {
        UndisturbedAt(env, stopped, r);
        assert false;
      }
      ProceedsMonotone(env, if exit.ContactTableFull? then stopped + 1 else stopped, r);
    }
  }
}
