/**
 Route fields of a contact: the precomputed effective route, the radio dictionary it is sent as, and
 the repository writes that store it.
 */
module ContactRoutes {
  import opened Common
  import opened RouteRepair

  datatype RadioDict = RadioDict(outPath: Option<string>, outPathLen: Option<int>, outPathHashMode: Option<int>)

  datatype Source = FromOverride | FromDirect | FromFlood

  function OrNone(path: string): Option<string>
  {
    if path == "" then None else Some(path)
  }

  /** A repaired route as contact fields; an empty path is kept as null. */
  function AsFields(r: Route): Triple
  {
    Triple(OrNone(r.path), Some(r.len), Some(r.mode))
  }

  /** ContactUpsert.from_radio_dict, route fields. */
  function FromRadioDict(d: RadioDict): Route
  {
    var len := if d.outPathLen.Some? then d.outPathLen else Some(-1);
    var mode := if d.outPathHashMode.Some? then d.outPathHashMode else Some(if len == Some(-1) then -1 else 0);
    Repair(d.outPath, len, mode)
  }

  /** Missing fields: no length is flood, and a missing mode is 0 for every real length. */
  lemma RadioDictDefaults(d: RadioDict)
    ensures d.outPathLen.None? ==> FromRadioDict(d) == Route("", -1, -1)
    ensures d.outPathLen.Some? && d.outPathHashMode.Some? ==>
      FromRadioDict(d) == Repair(d.outPath, d.outPathLen, d.outPathHashMode)
    ensures d.outPathLen.Some? && d.outPathLen.value != -1 && d.outPathHashMode.None? ==>
      FromRadioDict(d) == Repair(d.outPath, d.outPathLen, Some(0))
  {
  }

  /** The route a contact with these stored fields uses: the override if set, else a usable direct route, else flood. */
  function Effective(direct: Triple, override: Triple): (Route, Source)
  {
    var d := Repair(direct.path, direct.len, direct.mode);
    if override.len.Some? then (Repair(override.path, override.len, override.mode), FromOverride)
    else if d.len >= 0 then (d, FromDirect)
    else (FLOOD, FromFlood)
  }

  /** The stored fields the effective route comes from are not stable under repair. */
  predicate UnstableInUse(direct: Triple, override: Triple)
  {
    if override.len.Some? then Unstable(override.path, override.len, override.mode)
    else Unstable(direct.path, direct.len, direct.mode)
  }

  /** The route recomputed from a contact's fields. */
  function InUse(direct: Triple, override: Triple): Route
  {
    if override.len.Some? then Repair(override.path, override.len, override.mode)
    else if direct.len.Some? && direct.len.value >= 0 then Repair(direct.path, direct.len, direct.mode)
    else FLOOD
  }

  function AsDict(r: Route): RadioDict
  {
    RadioDict(Some(r.path), Some(r.len), Some(r.mode))
  }

  /** The fields a contact holds after its stored ones were repaired. */
  function RepairedDirect(direct: Triple): Triple
  {
    AsFields(Repair(direct.path, direct.len, direct.mode))
  }

  function RepairedOverride(override: Triple): Triple
  {
    if override.len.Some? then AsFields(Repair(override.path, override.len, override.mode)) else UNSET
  }

  /** An empty path is as good as none. */
  lemma AgainFromFields(r: Route)
    ensures Repair(AsFields(r).path, AsFields(r).len, AsFields(r).mode) == Again(r)
  {
  }

  lemma DictRoundTrip(r: Route)
    ensures FromRadioDict(AsDict(r)) == Again(r)
  {
  }

  lemma FloodAgain()
    ensures Again(FLOOD) == FLOOD
  {
  }

  /** The precomputed route is the recomputed one exactly for stable fields, and then survives the radio dictionary. */
  lemma PrecomputedExactly(direct: Triple, override: Triple)
    requires direct.len.Some?
    ensures var now := InUse(RepairedDirect(direct), RepairedOverride(override));
      var r := Effective(direct, override).0;
      && (now == r <==> !UnstableInUse(direct, override))
      && (now == r ==> FromRadioDict(AsDict(now)) == r)
  {
    var d := Repair(direct.path, direct.len, direct.mode);
    var o := Repair(override.path, override.len, override.mode);
    RepairIsIdempotentExactly(direct.path, direct.len, direct.mode);
    RepairIsIdempotentExactly(override.path, override.len, override.mode);
    FloodIsStable(direct);
    FloodAgain();
    AgainFromFields(d);
    AgainFromFields(o);
    DictRoundTrip(InUse(RepairedDirect(direct), RepairedOverride(override)));
  }

  class Contact {
    var directPath: Option<string>
    var directPathLen: int
    var directPathHashMode: int
    var overridePath: Option<string>
    var overrideLen: Option<int>
    var overrideHashMode: Option<int>
    var effectiveRoute: Route
    var effectiveSource: Source
    var directRoute: Option<Route>
    var routeOverride: Option<Route>

    ghost function Direct(): Triple
      reads this
    {
      Triple(directPath, Some(directPathLen), Some(directPathHashMode))
    }

    ghost function Override(): Triple
      reads this
    {
      Triple(overridePath, overrideLen, overrideHashMode)
    }

    constructor (directPath: Option<string>, directPathLen: int, directPathHashMode: int, override: Triple)
      ensures (effectiveRoute, effectiveSource) ==
        Effective(Triple(directPath, Some(directPathLen), Some(directPathHashMode)), override)
      ensures EffectiveRouteTuple() == effectiveRoute <==>
        !UnstableInUse(Triple(directPath, Some(directPathLen), Some(directPathHashMode)), override)
      ensures Direct() == AsFields(Repair(directPath, Some(directPathLen), Some(directPathHashMode)))
      ensures Override() == if override.len.Some? then AsFields(effectiveRoute) else UNSET
    {
      this.directPath, this.directPathLen, this.directPathHashMode := directPath, directPathLen, directPathHashMode;
      this.overridePath, this.overrideLen, this.overrideHashMode := override.path, override.len, override.mode;
      effectiveRoute, effectiveSource, directRoute, routeOverride := FLOOD, FromFlood, None, None;
      new;
      PostInit();
    }

    /**
     model_post_init: repairs the stored fields in place and precomputes the effective route. The
     precomputed route is what EffectiveRouteTuple recomputes, except for unstable inputs; and then
     sending it to the radio and reading it back gives the same route.
     */
    method PostInit()
      modifies this
      ensures (effectiveRoute, effectiveSource) == Effective(old(Direct()), old(Override()))
      ensures EffectiveRouteTuple() == effectiveRoute <==> !UnstableInUse(old(Direct()), old(Override()))
      ensures !UnstableInUse(old(Direct()), old(Override())) ==> FromRadioDict(ToRadioDict()) == effectiveRoute
      ensures routeOverride == if old(overrideLen).Some? then Some(effectiveRoute) else None
      ensures Override() == if old(overrideLen).Some? then AsFields(effectiveRoute) else UNSET
      ensures Direct() == AsFields(Repair(old(directPath), Some(old(directPathLen)), Some(old(directPathHashMode))))
      ensures old(overrideLen).Some? ==>
        effectiveSource == FromOverride &&
        effectiveRoute == Repair(old(overridePath), old(overrideLen), old(overrideHashMode))
      ensures old(overrideLen).None? && directRoute.Some? ==>
        effectiveSource == FromDirect && effectiveRoute == directRoute.value
      ensures old(overrideLen).None? && directRoute.None? ==>
        effectiveSource == FromFlood && effectiveRoute == Route("", -1, -1)
      ensures directRoute == if directPathLen >= 0
        then Some(Repair(old(directPath), Some(old(directPathLen)), Some(old(directPathHashMode)))) else None
    {
      ghost var direct0, override0 := Direct(), Override();
      var d := NormalizeContactRoute(directPath, Some(directPathLen), Some(directPathHashMode));
      var o := if overrideLen.Some? then Some(Repair(overridePath, overrideLen, overrideHashMode)) else None;
      ChooseRoute(d, o);
      StoreFields(d, o);
      PrecomputedExactly(direct0, override0);
    }

    /** The override if there is one, else a usable direct route, else flood. */
    method ChooseRoute(d: Route, o: Option<Route>)
      modifies this`routeOverride, this`directRoute, this`effectiveSource, this`effectiveRoute
      ensures routeOverride == o && directRoute == (if d.len >= 0 then Some(d) else None)
      ensures (effectiveRoute, effectiveSource) ==
        if o.Some? then (o.value, FromOverride) else if d.len >= 0 then (d, FromDirect) else (FLOOD, FromFlood)
    {
      routeOverride := o;
      directRoute := if d.len >= 0 then Some(d) else None;
      if o.Some? {
        effectiveSource, effectiveRoute := FromOverride, o.value;
      } else if d.len >= 0 {
        effectiveSource, effectiveRoute := FromDirect, d;
      } else {
        effectiveSource, effectiveRoute := FromFlood, FLOOD;
      }
    }

    method StoreFields(d: Route, o: Option<Route>)
      modifies this`directPath, this`directPathLen, this`directPathHashMode
      modifies this`overridePath, this`overrideLen, this`overrideHashMode
      ensures Direct() == AsFields(d) && Override() == if o.Some? then AsFields(o.value) else UNSET
    {
      directPath, directPathLen, directPathHashMode := OrNone(d.path), d.len, d.mode;
      if o.Some? {
        overridePath, overrideLen, overrideHashMode := OrNone(o.value.path), Some(o.value.len), Some(o.value.mode);
      } else {
        overridePath, overrideLen, overrideHashMode := None, None, None;
      }
    }

    function EffectiveRouteTuple(): Route
      reads this
    {
      InUse(Triple(directPath, Some(directPathLen), Some(directPathHashMode)),
        Triple(overridePath, overrideLen, overrideHashMode))
    }

    function ToRadioDict(): RadioDict
      reads this
    {
      AsDict(EffectiveRouteTuple())
    }
  }

  /** The exception is real: a contact whose precomputed route is not the one it recomputes. */
  method UnstableContact(path: string) returns (c: Contact)
    requires |path| == 128
    ensures fresh(c) && c.effectiveRoute == Route(path, 64, 0) && c.effectiveSource == FromDirect
    ensures c.EffectiveRouteTuple() == Route("", 0, 1)
  {
    RepairingTwiceCanEmptyARoute(path);
    c := new Contact(Some(path), 200, 0, UNSET);
  }

  /** A direct route that repairs to no usable route is stable. */
  lemma FloodIsStable(direct: Triple)
    requires direct.len.Some?
    ensures Repair(direct.path, direct.len, direct.mode).len < 0 ==> !Unstable(direct.path, direct.len, direct.mode)
  {
  }

  // ---------------------------------------------------------------------------------------------
  // Repository writes

  datatype Row = Row(direct: Triple, override: Triple, lastSeen: Option<int>)

  datatype Write =
    | UpsertWrite(key: string, direct: Triple, override: Triple, seen: Option<int>)
    | DirectPathWrite(key: string, path: string, len: int, mode: Option<int>, at: int)
    | OverrideWrite(key: string, triple: Triple)
    | ClearOverrideWrite(key: string)
    | TouchWrite(key: string, at: int)

  ghost predicate Repaired(t: Triple)
  {
    exists p: Option<string>, l: Option<int>, m: Option<int> :: t == Whole(Repair(p, l, m))
  }

  /** All null, or one whole repaired triple. */
  ghost predicate Sound(t: Triple)
  {
    t == UNSET || Repaired(t)
  }

  /** A stored triple whose path is short is a fixed point of the repair. */
  lemma RepairedShortTripleIsFixed(t: Triple)
    requires Repaired(t) && |t.path.value| / 2 <= 63
    ensures Repair(t.path, t.len, t.mode) == Route(t.path.value, t.len.value, t.mode.value)
  {
    var p: Option<string>, l: Option<int>, m: Option<int> :| t == Whole(Repair(p, l, m));
    RepairIsIdempotentExactly(p, l, m);
    if Unstable(p, l, m) {
      UnstableKeepsThePath(p, l, m);
      assert false;
    }
  }

  /** An unstable input has a path of 64 bytes or more, which the first repair keeps. */
  lemma UnstableKeepsThePath(path: Option<string>, len: Option<int>, mode: Option<int>)
    requires Unstable(path, len, mode)
    ensures Repair(path, len, mode).path == path.value && |path.value| / 2 > 63
  {
    UnstableIsLong(|path.value| / 2, BytesPerHop(mode));
  }

  lemma UnstableIsLong(bytes: nat, n: int)
    requires 1 <= n <= 3 && Misread(bytes / n)
    ensures bytes > 63
  {
  }

  /** Later in time; nothing recorded comes before everything. */
  predicate NotBefore(a: Option<int>, b: Option<int>)
  {
    b.None? || (a.Some? && a.value >= b.value)
  }

  function Coalesce<T>(a: Option<T>, b: Option<T>): Option<T>
  {
    if a.Some? then a else b
  }

  /** ON CONFLICT DO UPDATE works column by column. */
  function CoalesceColumns(new_: Triple, stored: Triple): Triple
  {
    Triple(Coalesce(new_.path, stored.path), Coalesce(new_.len, stored.len), Coalesce(new_.mode, stored.mode))
  }

  class ContactTable {
    var rows: map<string, Row>

    ghost predicate Valid()
      reads this
    {
      forall k :: k in rows ==> Sound(rows[k].direct) && Sound(rows[k].override)
    }

    /** Nothing disappears and last_seen never moves back. */
    twostate predicate Grown()
      reads this
    {
      forall k :: k in old(rows) ==> k in rows && NotBefore(rows[k].lastSeen, old(rows)[k].lastSeen)
    }

    constructor ()
      ensures Valid() && rows == map[]
    {
      rows := map[];
    }

    method Upsert(key: string, direct: Triple, override: Triple, seen: Option<int>)
      requires Valid()
      modifies this
      ensures Valid() && Grown() && key in rows
      ensures rows[key].lastSeen == Later(if key in old(rows) then old(rows)[key].lastSeen else None, seen)
      // Although merged column by column, a route is replaced whole or kept whole.
      ensures rows[key].direct ==
        if direct != UNSET then Whole(Repair(direct.path, direct.len, direct.mode))
        else if key in old(rows) then old(rows)[key].direct else UNSET
      ensures rows[key].override ==
        if override.len.Some? then Whole(Repair(override.path, override.len, override.mode))
        else if key in old(rows) then old(rows)[key].override else UNSET
      ensures forall k :: k != key ==> (k in rows <==> k in old(rows)) && (k in rows ==> rows[k] == old(rows)[k])
    {
      var d := UNSET;
      if direct != UNSET {
        var r := NormalizeContactRoute(direct.path, direct.len, direct.mode);
        d := Whole(r);
        assert Repaired(d);
      }
      var o := RepairOverride(override);
      assert Sound(o);
      if key in rows {
        var row := rows[key];
        rows := rows[key :=
          Row(CoalesceColumns(d, row.direct), CoalesceColumns(o, row.override), Later(row.lastSeen, seen))];
      } else {
        rows := rows[key := Row(d, o, seen)];
      }
    }

    method UpdateDirectPath(key: string, path: string, len: int, mode: Option<int>, at: int)
      requires Valid()
      modifies this
      ensures Valid() && Grown()
      ensures rows.Keys == old(rows).Keys && forall k :: k in rows && k != key ==> rows[k] == old(rows)[k]
      ensures key in rows ==> rows[key] == old(rows)[key].(
        direct := Whole(Repair(Some(path), Some(len), mode)), lastSeen := Later(old(rows)[key].lastSeen, Some(at)))
    {
      var r := NormalizeContactRoute(Some(path), Some(len), mode);
      assert Repaired(Whole(r));
      if key in rows {
        var row := rows[key];
        var direct := Triple(Some(r.path), Some(r.len), Coalesce(Some(r.mode), row.direct.mode));
        rows := rows[key := row.(direct := direct, lastSeen := Later(row.lastSeen, Some(at)))];
      }
    }

    method SetRoutingOverride(key: string, triple: Triple)
      requires Valid()
      modifies this
      ensures Valid() && Grown()
      ensures rows.Keys == old(rows).Keys && forall k :: k in rows && k != key ==> rows[k] == old(rows)[k]
      ensures key in rows ==> rows[key] == old(rows)[key].(override := RepairOverride(triple))
      ensures key in rows && triple.len.None? ==> rows[key].override == Triple(None, None, None)
      ensures key in rows && triple.len.Some? ==>
        var r := Repair(triple.path, triple.len, triple.mode);
        rows[key].override == Triple(Some(r.path), Some(r.len), Some(r.mode))
    {
      var o := RepairOverride(triple);
      assert Sound(o);
      if key in rows {
        rows := rows[key := rows[key].(override := o)];
      }
    }

    method ClearRoutingOverride(key: string)
      requires Valid()
      modifies this
      ensures Valid() && Grown()
      ensures rows.Keys == old(rows).Keys && forall k :: k in rows && k != key ==> rows[k] == old(rows)[k]
      ensures key in rows ==> rows[key] == old(rows)[key].(override := UNSET)
    {
      if key in rows {
        rows := rows[key := rows[key].(override := UNSET)];
      }
    }

    method TouchLastSeen(key: string, at: int)
      requires Valid()
      modifies this
      ensures Valid() && Grown()
      ensures rows.Keys == old(rows).Keys && forall k :: k in rows && k != key ==> rows[k] == old(rows)[k]
      ensures key in rows ==> rows[key] == old(rows)[key].(lastSeen := Later(old(rows)[key].lastSeen, Some(at)))
    {
      if key in rows {
        rows := rows[key := rows[key].(lastSeen := Later(rows[key].lastSeen, Some(at)))];
      }
    }

    /** Any sequence of writes: every stored triple is sound, no row is lost, last_seen never decreases. */
    method Run(writes: seq<Write>)
      requires Valid()
      modifies this
      ensures Valid() && Grown()
    {
      var i := 0;
      while i < |writes|
        invariant 0 <= i <= |writes|
        invariant Valid() && Grown()
      {
        match writes[i] {
        case UpsertWrite(key, direct, override, seen) => Upsert(key, direct, override, seen);
        case DirectPathWrite(key, path, len, mode, at) => UpdateDirectPath(key, path, len, mode, at);
        case OverrideWrite(key, triple) => SetRoutingOverride(key, triple);
        case ClearOverrideWrite(key) => ClearRoutingOverride(key);
        case TouchWrite(key, at) => TouchLastSeen(key, at);
        }
        i := i + 1;
      }
    }
  }
}
