/** Which contacts belong on the radio: capacity limits and the three-stage selection. */
module ContactSelection {
  import opened Common
  import opened Text

  datatype Contact = Contact(publicKey: string, kind: nat)

  // ---------------------------------------------------------------------------------------------
  // Limits. The ratios 0.80 and 0.95 are the exact fractions 4/5 and 19/20.

  function EffectiveCapacity(configured: int, hardware: Option<int>): (c: int)
    ensures c >= 1
    ensures c <= configured || c == 1
    ensures hardware.Some? ==> c <= hardware.value || c == 1
    // One of the two limits is attained.
    ensures hardware.None? || hardware.value >= configured ==> c == if configured < 1 then 1 else configured
    ensures hardware.Some? && hardware.value < configured ==> c == if hardware.value < 1 then 1 else hardware.value
  {
    var wanted := if configured < 1 then 1 else configured;
    var capped := if hardware.Some? && hardware.value < wanted then hardware.value else wanted;
    if capped < 1 then 1 else capped
  }

  /** Round half up of 0.8 * capacity, kept within 1..capacity. */
  function RefillTarget(maxContacts: int): (r: int)
  {
    var capacity := Max(1, maxContacts);
    Max(1, Min(capacity, (8 * capacity + 5) / 10))
  }

  /** Ceiling of 0.95 * capacity, at least the refill target. */
  function FullSyncTrigger(maxContacts: int): (t: int)
  {
    var capacity := Max(1, maxContacts);
    Max(RefillTarget(maxContacts), Min(capacity, (95 * capacity + 99) / 100))
  }

  /** The two thresholds never cross, and are apart exactly from capacity 3 on. */
  lemma LimitsAreOrdered(maxContacts: int)
    ensures 1 <= RefillTarget(maxContacts) <= FullSyncTrigger(maxContacts) <= Max(1, maxContacts)
    ensures RefillTarget(maxContacts) < FullSyncTrigger(maxContacts) <==> maxContacts >= 3
  {
  }

  /** Exactly the nearest integer to 80 percent, halves up, and the least integer of at least 95 percent. */
  lemma LimitsAreThePercentages(maxContacts: int)
    ensures var c := if maxContacts < 1 then 1 else maxContacts; var r := RefillTarget(maxContacts);
      10 * r - 5 <= 8 * c < 10 * r + 5
    ensures var c := if maxContacts < 1 then 1 else maxContacts; var t := FullSyncTrigger(maxContacts);
      100 * (t - 1) < 95 * c <= 100 * t
  {
  }

  // ---------------------------------------------------------------------------------------------
  // Selection

  function KeyOf(c: Contact): string
  {
    Lower(c.publicKey)
  }

  predicate Chosen(selected: seq<Contact>, key: string)
  {
    exists c :: c in selected && KeyOf(c) == key
  }

  predicate Wanted(selected: seq<Contact>, c: Contact)
  {
    !Chosen(selected, KeyOf(c)) && c.kind != 0
  }

  /** Appends the new eligible contacts of the source, in order, until the limit is reached. */
  function Fill(selected: seq<Contact>, source: seq<Contact>, limit: int): (r: seq<Contact>)
    decreases |source|
  {
    if source == [] || |selected| >= limit then selected
    else Fill(if Wanted(selected, source[0]) then selected + [source[0]] else selected, source[1..], limit)
  }

  ghost predicate NoDuplicates(selected: seq<Contact>)
  {
    forall i, j :: 0 <= i < j < |selected| ==> KeyOf(selected[i]) != KeyOf(selected[j])
  }

  ghost predicate Proper(selected: seq<Contact>)
  {
    NoDuplicates(selected) && forall c :: c in selected ==> c.kind != 0
  }

  lemma ProperGrows(selected: seq<Contact>, c: Contact)
    requires Proper(selected) && Wanted(selected, c)
    ensures Proper(selected + [c])
  {
    forall i | 0 <= i < |selected|
      ensures KeyOf(selected[i]) != KeyOf(c)
    {
      assert selected[i] in selected;
    }
  }

  /** No duplicate keys, no type-0 entries, never beyond the limit; nothing already there is moved. */
  lemma {:induction false} FillIsProper(selected: seq<Contact>, source: seq<Contact>, limit: int)
    requires Proper(selected)
    ensures var r := Fill(selected, source, limit);
      Proper(r) && selected <= r && |r| <= Max(|selected|, limit)
    decreases |source|
  {
    if source != [] && |selected| < limit {
      var c := source[0];
      if Wanted(selected, c) {
        ProperGrows(selected, c);
        FillIsProper(selected + [c], source[1..], limit);
      } else {
        FillIsProper(selected, source[1..], limit);
      }
    }
  }

  /** What is added comes from the source. */
  lemma {:induction false} FillAddsFromSource(selected: seq<Contact>, source: seq<Contact>, limit: int, c: Contact)
    requires c in Fill(selected, source, limit)
    ensures c in selected || c in source
    decreases |source|
  {
    if source != [] && |selected| < limit {
      var next := if Wanted(selected, source[0]) then selected + [source[0]] else selected;
      FillAddsFromSource(next, source[1..], limit, c);
    }
  }

  lemma {:induction false} ChosenStays(before: seq<Contact>, source: seq<Contact>, limit: int, key: string)
    requires Chosen(before, key)
    ensures Chosen(Fill(before, source, limit), key)
    decreases |source|
  {
    if source != [] && |before| < limit {
      var next := if Wanted(before, source[0]) then before + [source[0]] else before;
      var c :| c in before && KeyOf(c) == key;
      assert c in next;
      ChosenStays(next, source[1..], limit, key);
    }
  }

  /** The source's order is kept: a contact is added only after every eligible one before it is represented. */
  lemma {:induction false} FillTakesInOrder(selected: seq<Contact>, source: seq<Contact>, limit: int, i: nat, j: nat)
    requires i < j < |source| && source[i].kind != 0
    requires source[j] in Fill(selected, source, limit) && source[j] !in selected && source[j] !in source[..j]
    ensures Chosen(Fill(selected, source, limit), KeyOf(source[i]))
    decreases |source|
  {
    if |selected| < limit {
      var next := if Wanted(selected, source[0]) then selected + [source[0]] else selected;
      if i == 0 {
        assert Chosen(next, KeyOf(source[0])) by {
          if Wanted(selected, source[0]) {
            assert next[|selected|] == source[0];
          }
        }
        ChosenStays(next, source[1..], limit, KeyOf(source[0]));
      } else {
        assert source[0] in source[..j] && source[1..][..j - 1] == source[1..j];
        assert forall c :: c in source[1..j] ==> c in source[..j];
        FillTakesInOrder(next, source[1..], limit, i - 1, j - 1);
      }
    }
  }

  /** It stops below the limit only when every eligible contact of the source is represented. */
  lemma {:induction false} FillExhausts(selected: seq<Contact>, source: seq<Contact>, limit: int, c: Contact)
    requires |Fill(selected, source, limit)| < limit && c in source && c.kind != 0
    ensures Chosen(Fill(selected, source, limit), KeyOf(c))
    decreases |source|
  {
    if |selected| < limit {
      var next := if Wanted(selected, source[0]) then selected + [source[0]] else selected;
      if c == source[0] {
        assert Chosen(next, KeyOf(c)) by {
          if Wanted(selected, c) {
            assert next[|selected|] == c;
          }
        }
        ChosenStays(next, source[1..], limit, KeyOf(c));
      } else {
        FillExhausts(next, source[1..], limit, c);
      }
    }
  }

  /** The limit only cuts: the result is the selection a larger limit would give, truncated. */
  lemma {:induction false} FillIsAPrefix(selected: seq<Contact>, source: seq<Contact>, limit: int, larger: int)
    requires |selected| <= limit <= larger
    ensures var full := Fill(selected, source, larger);
      Fill(selected, source, limit) == if |full| <= limit then full else full[..limit]
    decreases |source|
  {
    if |selected| == limit {
      FillKeepsPrefix(selected, source, larger);
    } else if source != [] {
      var next := if Wanted(selected, source[0]) then selected + [source[0]] else selected;
      FillIsAPrefix(next, source[1..], limit, larger);
    }
  }

  lemma {:induction false} FillKeepsPrefix(selected: seq<Contact>, source: seq<Contact>, limit: int)
    ensures selected <= Fill(selected, source, limit)
    decreases |source|
  {
    if source != [] && |selected| < limit {
      FillKeepsPrefix(if Wanted(selected, source[0]) then selected + [source[0]] else selected, source[1..], limit);
    }
  }

  /** The source's loop over one candidate list, with its set of selected keys. */
  method FillFrom(selected0: seq<Contact>, keys0: set<string>, source: seq<Contact>, limit: int)
    returns (selected: seq<Contact>, keys: set<string>)
    requires |selected0| < limit && forall k :: k in keys0 <==> Chosen(selected0, k)
    ensures selected == Fill(selected0, source, limit)
    ensures forall k :: k in keys <==> Chosen(selected, k)
  {
    selected, keys := selected0, keys0;
    var i := 0;
    while i < |source|
      invariant 0 <= i <= |source| && |selected| < limit
      invariant forall k :: k in keys <==> Chosen(selected, k)
      invariant Fill(selected0, source, limit) == Fill(selected, source[i..], limit)
    {
      var contact := source[i];
      var key := KeyOf(contact);
      assert source[i..][0] == contact && source[i..][1..] == source[i + 1..];
      if key !in keys && contact.kind != 0 {
        ChosenAfterAppend(selected, contact);
        keys := keys + {key};
        selected := selected + [contact];
        if |selected| >= limit {
          return;
        }
      }
      i := i + 1;
    }
  }

  lemma ChosenAfterAppend(selected: seq<Contact>, c: Contact)
    ensures forall k :: Chosen(selected + [c], k) <==> Chosen(selected, k) || k == KeyOf(c)
  {
    assert (selected + [c])[|selected|] == c;
    forall k | Chosen(selected, k)
      ensures Chosen(selected + [c], k)
    {
      var x :| x in selected && KeyOf(x) == k;
      assert x in selected + [c];
    }
  }

  /** The declarative reading of the selection: three fills, one after the other. */
  function Selection(capacity: int, favorites: seq<Contact>, conversations: seq<Contact>,
                     adverts: seq<Contact>): seq<Contact>
  {
    ThreeFills(capacity, RefillTarget(capacity), favorites, conversations, adverts)
  }

  /** Favorites up to the capacity, then conversations and adverts up to the refill target. */
  function ThreeFills(capacity: int, refill: int, favorites: seq<Contact>, conversations: seq<Contact>,
                      adverts: seq<Contact>): seq<Contact>
  {
    Fill(Fill(Fill([], favorites, capacity), conversations, refill), adverts, refill)
  }

  lemma ThreeFillsFit(capacity: int, refill: int, favorites: seq<Contact>, conversations: seq<Contact>,
                      adverts: seq<Contact>)
    requires 1 <= refill <= capacity
    ensures var s := ThreeFills(capacity, refill, favorites, conversations, adverts);
      var favs := Fill([], favorites, capacity);
      && Proper(s) && |s| <= capacity && favs <= s && Fill(favs, conversations, refill) <= s
      && (|favs| < |s| ==> |s| <= refill)
  {
    var favs := Fill([], favorites, capacity);
    var mid := Fill(favs, conversations, refill);
    FillIsProper([], favorites, capacity);
    FillIsProper(favs, conversations, refill);
    FillIsProper(mid, adverts, refill);
    PrefixTwice(favs, mid, Fill(mid, adverts, refill));
  }

  lemma PrefixTwice(a: seq<Contact>, b: seq<Contact>, c: seq<Contact>)
    requires a <= b <= c
    ensures a <= c && |a| <= |b| <= |c|
  {
  }

  lemma ThreeFillsLeaveNoOneOut(capacity: int, refill: int, favorites: seq<Contact>, conversations: seq<Contact>,
                                adverts: seq<Contact>, c: Contact)
    requires refill <= capacity && c.kind != 0 && (c in favorites || c in conversations || c in adverts)
    requires |ThreeFills(capacity, refill, favorites, conversations, adverts)| < refill
    ensures Chosen(ThreeFills(capacity, refill, favorites, conversations, adverts), KeyOf(c))
  {
    var favs := Fill([], favorites, capacity);
    var mid := Fill(favs, conversations, refill);
    FillKeepsPrefix(favs, conversations, refill);
    FillKeepsPrefix(mid, adverts, refill);
    PrefixTwice(favs, mid, Fill(mid, adverts, refill));
    if c in favorites {
      FillExhausts([], favorites, capacity, c);
      ChosenStays(favs, conversations, refill, KeyOf(c));
      ChosenStays(mid, adverts, refill, KeyOf(c));
    } else if c in conversations {
      FillExhausts(favs, conversations, refill, c);
      ChosenStays(mid, adverts, refill, KeyOf(c));
    } else {
      FillExhausts(mid, adverts, refill, c);
    }
  }

  /** get_contacts_selected_for_radio_sync */
  method SelectForRadio(configured: int, hardware: Option<int>,
                        favorites: seq<Contact>, conversations: seq<Contact>, adverts: seq<Contact>)
    returns (selected: seq<Contact>)
    ensures selected == Selection(EffectiveCapacity(configured, hardware), favorites, conversations, adverts)
  {
    var capacity := EffectiveCapacity(configured, hardware);
    var refill := RefillTarget(capacity);
    var keys: set<string>;
    selected, keys := FillFrom([], {}, favorites, capacity);
    if |selected| < refill {
      selected, keys := FillFrom(selected, keys, conversations, refill);
    }
    if |selected| < refill {
      selected, keys := FillFrom(selected, keys, adverts, refill);
    }
  }

  /**
   The selection starts with the favorites, then the conversations, has no duplicate keys and no type-0
   entries, fits the radio, and goes beyond the favorites only up to the refill target.
   */
  lemma SelectionFitsTheRadio(capacity: int, favorites: seq<Contact>, conversations: seq<Contact>,
                              adverts: seq<Contact>)
    requires capacity >= 1
    ensures var s := Selection(capacity, favorites, conversations, adverts); var favs := Fill([], favorites, capacity);
      && Proper(s) && |s| <= capacity && favs <= s
      && Fill(favs, conversations, RefillTarget(capacity)) <= s
      && (forall c :: c in favs ==> c in favorites)
      && (|favs| < |s| ==> |s| <= RefillTarget(capacity))
  {
    LimitsAreOrdered(capacity);
    ThreeFillsFit(capacity, RefillTarget(capacity), favorites, conversations, adverts);
    forall c | c in Fill([], favorites, capacity)
      ensures c in favorites
    {
      FillAddsFromSource([], favorites, capacity, c);
    }
  }

  /** Below the refill target nothing eligible is left out. */
  lemma SelectionLeavesNoOneOut(capacity: int, favorites: seq<Contact>, conversations: seq<Contact>,
                                adverts: seq<Contact>, c: Contact)
    requires capacity >= 1 && c.kind != 0 && c in favorites + conversations + adverts
    requires |Selection(capacity, favorites, conversations, adverts)| < RefillTarget(capacity)
    ensures Chosen(Selection(capacity, favorites, conversations, adverts), KeyOf(c))
  {
    LimitsAreOrdered(capacity);
    ThreeFillsLeaveNoOneOut(capacity, RefillTarget(capacity), favorites, conversations, adverts, c);
  }

  /** A radio holding exactly the selection stays below the full-sync trigger exactly when its favorites do. */
  lemma ConvergedRadioStaysQuiet(capacity: int, favorites: seq<Contact>, conversations: seq<Contact>,
                                 adverts: seq<Contact>)
    requires capacity >= 3
    ensures |Selection(capacity, favorites, conversations, adverts)| < FullSyncTrigger(capacity) <==>
      |Fill([], favorites, capacity)| < FullSyncTrigger(capacity)
  {
    LimitsAreOrdered(capacity);
    var refill, trigger := RefillTarget(capacity), FullSyncTrigger(capacity);
    ThreeFillsFit(capacity, refill, favorites, conversations, adverts);
  }
}
