/**
 The stored form of a contact route, the repair applied to it on every write, read and use, and the
 comma-separated explicit routes an operator may type.
 */
module RouteRepair {
  import opened Common
  import opened Text

  /** Hex path, hop count (-1 for flood) and hash mode (bytes per hop minus one; -1 for flood). */
  datatype Route = Route(path: string, len: int, mode: int)

  const FLOOD := Route("", -1, -1)

  function BytesPerHop(mode: Option<int>): (n: int)
    ensures 1 <= n <= 3
  {
    if mode.Some? && 0 <= mode.value <= 2 then mode.value + 1 else 1
  }

  /** A hop count outside -1..63 is really a packed path byte, possibly read as signed. */
  predicate OutOfRange(len: int)
  {
    len < -1 || len > 63
  }

  /** Cuts the path to the hop count, or the hop count to the path if the path holds whole hops. */
  function Fit(path: string, len: int, bytesPerHop: int): (r: Route)
    requires bytesPerHop > 0
  {
    var actual, expected := |path| / 2, len * bytesPerHop;
    if path == "" then Route(path, len, bytesPerHop - 1)
    else if actual > expected >= 0 then Route(path[..expected * 2], len, bytesPerHop - 1)
    else if actual < expected && actual % bytesPerHop == 0 then Route(path, actual / bytesPerHop, bytesPerHop - 1)
    else Route(path, len, bytesPerHop - 1)
  }

  function Repair(path: Option<string>, len: Option<int>, mode: Option<int>): (r: Route)
  {
    var p := if path.Some? then path.value else "";
    var l := if len.Some? then len.value else -1;
    if OutOfRange(l) && l % 256 == 255 then FLOOD
    else if OutOfRange(l) && l % 256 < 192 then Fit(p, l % 256 % 64, l % 256 / 64 + 1)
    else if l == -1 then FLOOD
    else Fit(p, l, BytesPerHop(mode))
  }

  /** The source's code, reassigning its locals. */
  method NormalizeContactRoute(path: Option<string>, pathLen: Option<int>, pathHashMode: Option<int>) returns (r: Route)
    ensures r == Repair(path, pathLen, pathHashMode)
  {
    var normalizedPath := if path.Some? then path.value else "";
    var normalizedLen := if pathLen.Some? then pathLen.value else -1;
    var normalizedMode := pathHashMode;
    if normalizedLen < -1 || normalizedLen > 63 {
      var packed := normalizedLen % 256;
      if packed == 0xFF {
        return FLOOD;
      }
      var decodedMode := packed / 64;
      if decodedMode != 3 {
        normalizedLen := packed % 64;
        normalizedMode := Some(decodedMode);
      }
    }
    if normalizedLen == -1 {
      return FLOOD;
    }
    if normalizedMode.None? || normalizedMode.value < 0 || normalizedMode.value > 2 {
      normalizedMode := Some(0);
    }
    if normalizedPath != "" {
      var bytesPerHop := normalizedMode.value + 1;
      var actual, expected := |normalizedPath| / 2, normalizedLen * bytesPerHop;
      if actual > expected && expected >= 0 {
        normalizedPath := normalizedPath[..expected * 2];
      } else if actual < expected && bytesPerHop > 0 && actual % bytesPerHop == 0 {
        normalizedLen := actual / bytesPerHop;
      }
    }
    r := Route(normalizedPath, normalizedLen, normalizedMode.value);
  }

  function Again(r: Route): Route
  {
    Repair(Some(r.path), Some(r.len), Some(r.mode))
  }

  // ---------------------------------------------------------------------------------------------
  // When repairing twice is repairing once

  /** A stored hop count the next repair would take for a packed byte. */
  predicate Misread(hops: int)
  {
    hops > 63 && !(192 <= hops % 256 < 255)
  }

  /**
   The inputs whose repair is not stable: a reserved-mode packed byte was kept as hop count, the path
   was too short for it, and cutting the count to the path gives a count that reads as packed.
   */
  predicate Unstable(path: Option<string>, len: Option<int>, mode: Option<int>)
  {
    && path.Some? && path.value != "" && len.Some? && len.value > 63
    && 192 <= len.value % 256 < 255
    && var n := BytesPerHop(mode); var bytes := |path.value| / 2;
       bytes < len.value * n && bytes % n == 0 && Misread(bytes / n)
  }

  lemma FitTwice(path: string, len: int, n: int)
    requires 1 <= n <= 3
    ensures var r := Fit(path, len, n);
      Fit(r.path, r.len, n) == r && (r.len == len || (r.len == |path| / 2 / n && r.len < len && r.len >= 0))
  {
    var bytes := |path| / 2;
    if path != "" && bytes < len * n && bytes % n == 0 {
      assert bytes / n * n == bytes;
    }
  }

  /** A count in 0..63, decoded or stored, survives the second repair. */
  lemma InRangeIsStable(path: string, len: int, n: int)
    requires 1 <= n <= 3 && 0 <= len <= 63
    ensures Again(Fit(path, len, n)) == Fit(path, len, n)
  {
    FitTwice(path, len, n);
  }

  /** A kept reserved-mode byte survives it too, unless the count was cut to one that reads as packed. */
  lemma ReservedIsStableExactly(path: string, len: int, n: int)
    requires 1 <= n <= 3 && OutOfRange(len) && 192 <= len % 256 < 255
    ensures var bytes := |path| / 2;
      Again(Fit(path, len, n)) == Fit(path, len, n) <==>
        !(path != "" && bytes < len * n && bytes % n == 0 && Misread(bytes / n))
  {
    var r := Fit(path, len, n);
    var bytes := |path| / 2;
    FitTwice(path, len, n);
    if path != "" && bytes < len * n && bytes % n == 0 {
      assert r == Route(path, bytes / n, n - 1);
      if Misread(r.len) && r.len % 256 < 192 {
        assert Again(r).len <= 63 by {
          FitTwice(path, r.len % 256 % 64, r.len % 256 / 64 + 1);
        }
      }
    } else {
      assert r.len == len;
    }
  }

  lemma RepairIsIdempotentExactly(path: Option<string>, len: Option<int>, mode: Option<int>)
    ensures Again(Repair(path, len, mode)) == Repair(path, len, mode) <==> !Unstable(path, len, mode)
  {
    var p := if path.Some? then path.value else "";
    var l := if len.Some? then len.value else -1;
    if OutOfRange(l) && l % 256 < 192 {
      InRangeIsStable(p, l % 256 % 64, l % 256 / 64 + 1);
    } else if OutOfRange(l) && l % 256 < 255 {
      ReservedIsStableExactly(p, l, BytesPerHop(mode));
      NegativeExpectsNothing(l, BytesPerHop(mode));
    } else if !OutOfRange(l) && l != -1 {
      InRangeIsStable(p, l, BytesPerHop(mode));
    }
  }

  lemma NegativeExpectsNothing(len: int, n: int)
    requires n > 0
    ensures len < 0 ==> len * n < 0
  {
  }

  /** In particular for every path of at most 63 bytes, which covers all a radio can report in range. */
  lemma RepairIsIdempotentOnShortPaths(path: Option<string>, len: Option<int>, mode: Option<int>)
    requires path.Some? ==> |path.value| / 2 <= 63
    ensures Again(Repair(path, len, mode)) == Repair(path, len, mode)
  {
    RepairIsIdempotentExactly(path, len, mode);
  }

  /**
   What the repair achieves: hop count and path agree, except for a path that is too short and does not
   hold whole hops, which is kept. The path is only ever cut at its end.
   */
  lemma RepairReconcilesCountAndPath(path: string, len: Option<int>, mode: Option<int>)
    ensures var r := Repair(Some(path), len, mode); var bytes := |path| / 2;
      && r.path <= path && (r == FLOOD || 0 <= r.mode <= 2)
      && (r.path != "" && r.len >= 0 ==>
        || |r.path| / 2 == r.len * (r.mode + 1)
        || (r.path == path && bytes < r.len * (r.mode + 1) && bytes % (r.mode + 1) != 0))
  {
    var l := if len.Some? then len.value else -1;
    if OutOfRange(l) && l % 256 < 192 {
      FitReconciles(path, l % 256 % 64, l % 256 / 64 + 1);
    } else if l >= 0 {
      FitReconciles(path, l, BytesPerHop(mode));
    }
  }

  lemma FitReconciles(path: string, len: int, n: int)
    requires 1 <= n <= 3 && len >= 0
    ensures var r := Fit(path, len, n); var bytes := |path| / 2;
      && r.path <= path && r.mode == n - 1
      && (r.path != "" ==> |r.path| / 2 == r.len * n || (r.path == path && bytes < r.len * n && bytes % n != 0))
  {
    var bytes := |path| / 2;
    assert len * n >= 0;
    if bytes % n == 0 {
      assert bytes / n * n == bytes;
    }
  }

  /** How much of the path and which hop count are kept, for a count of hops of n bytes each. */
  lemma FitOutcome(path: string, hops: int, n: int)
    requires 1 <= n <= 3
    ensures Fit(path, hops, n).mode == n - 1
    ensures path == "" ==> Fit(path, hops, n) == Route("", hops, n - 1)
    // Too long: exactly the first hops are kept.
    ensures path != "" && |path| / 2 > hops * n >= 0 ==>
      Fit(path, hops, n).len == hops && |Fit(path, hops, n).path| == 2 * (hops * n) && Fit(path, hops, n).path <= path
    // Too short for the count, but whole hops: they are counted again.
    ensures path != "" && |path| / 2 < hops * n && |path| / 2 % n == 0 ==>
      Fit(path, hops, n).path == path && Fit(path, hops, n).len * n == |path| / 2
    ensures path != "" && (|path| / 2 == hops * n || hops * n < 0 || (|path| / 2 < hops * n && |path| / 2 % n != 0)) ==>
      Fit(path, hops, n) == Route(path, hops, n - 1)
  {
  }

  /** Flood, a packed byte, or a plain hop count with a mode of 0, 1, 2 or else 0. */
  lemma RepairCases(path: Option<string>, len: Option<int>, mode: Option<int>)
    ensures var p := if path.Some? then path.value else ""; var l := if len.Some? then len.value else -1;
      var out := l < -1 || l > 63;
      && (l == -1 || (out && l % 256 == 255) ==> Repair(path, len, mode) == Route("", -1, -1))
      && (out && l % 256 < 192 ==> Repair(path, len, mode) == Fit(p, l % 256 % 64, l % 256 / 64 + 1))
      && (l != -1 && (!out || 192 <= l % 256 < 255) ==>
          Repair(path, len, mode) == Fit(p, l, if mode == Some(1) then 2 else if mode == Some(2) then 3 else 1))
  {
  }

  /** A path that is too short but holds whole hops, so that the repair recounts it. */
  predicate Recounted(path: string, hops: nat, n: int)
    requires n > 0
  {
    path != "" && |path| / 2 < hops * n && |path| / 2 % n == 0
  }

  /**
   A packed byte of mode 1 or 2 stored as hop count is decoded whatever the path: the mode always comes
   back, and the hop count exactly unless the path makes the repair recount it. Stored signed, it gives
   the same route.
   */
  lemma PackedByteRecovered(b: nat, path: Option<string>, mode: Option<int>)
    requires 64 <= b < 192
    ensures var r := Repair(path, Some(b), mode); var p := if path.Some? then path.value else "";
      && r.mode == b / 64
      && (r.len == b % 64 <==> !Recounted(p, b % 64, b / 64 + 1))
      && (Recounted(p, b % 64, b / 64 + 1) ==> r == Route(p, |p| / 2 / (b / 64 + 1), b / 64))
    ensures b >= 128 ==> Repair(path, Some(b - 256), mode) == Repair(path, Some(b), mode)
  {
    var p := if path.Some? then path.value else "";
    PackedIsDecoded(b, path, mode);
    FitCounts(p, b % 64, b / 64 + 1);
  }

  /** Signed or unsigned, the byte is read as count and mode. */
  lemma PackedIsDecoded(b: nat, path: Option<string>, mode: Option<int>)
    requires 64 <= b < 192
    ensures var p := if path.Some? then path.value else "";
      && Repair(path, Some(b), mode) == Fit(p, b % 64, b / 64 + 1)
      && (b >= 128 ==> Repair(path, Some(b - 256), mode) == Fit(p, b % 64, b / 64 + 1))
  {
    assert b % 256 == b && (b - 256) % 256 == b;
  }

  lemma FitCounts(path: string, hops: nat, n: int)
    requires 1 <= n <= 3
    ensures Fit(path, hops, n).mode == n - 1
    ensures Fit(path, hops, n).len == hops <==> !Recounted(path, hops, n)
    ensures Recounted(path, hops, n) ==> Fit(path, hops, n) == Route(path, |path| / 2 / n, n - 1)
  {
    if Recounted(path, hops, n) {
      assert |path| / 2 / n * n == |path| / 2;
    }
  }

  /** The exception to idempotence is real: 64 bytes of path under the reserved-mode count 200. */
  lemma RepairingTwiceCanEmptyARoute(path: string)
    requires |path| == 128
    ensures Repair(Some(path), Some(200), Some(0)) == Route(path, 64, 0)
    ensures Again(Route(path, 64, 0)) == Route("", 0, 1) && Unstable(Some(path), Some(200), Some(0))
  {
    RepairCases(Some(path), Some(200), Some(0));
    FitOutcome(path, 200, 1);
    RepairCases(Some(path), Some(64), Some(0));
    FitOutcome(path, 0, 2);
  }

  // ---------------------------------------------------------------------------------------------
  // Explicit routes

  const MAX_PATH_SIZE := 64

  datatype RouteError = NoHops | BadWidth | MixedWidths | NotHex | TooLong

  datatype Parsed = Ok(route: Route) | Err(error: RouteError)

  predicate IsHex(c: char)
  {
    '0' <= c <= '9' || 'a' <= c <= 'f' || 'A' <= c <= 'F'
  }

  predicate IsAsciiSpace(c: char)
  {
    c == ' ' || '\t' <= c <= '\r'
  }

  /** Python's notion of white space, as str.strip() uses it. */
  predicate IsSpace(c: char)
  {
    || IsAsciiSpace(c) || 28 <= c as int <= 31 || c as int == 0x85 || c as int == 0xA0 || c as int == 0x1680
    || 0x2000 <= c as int <= 0x200A || c as int in {0x2028, 0x2029, 0x202F, 0x205F, 0x3000}
  }

  /** What bytes.fromhex() accepts: pairs of hex digits, with white space allowed between pairs. */
  predicate FromHexAccepts(s: string)
  {
    s == "" ||
    (if IsAsciiSpace(s[0]) then FromHexAccepts(s[1..])
     else |s| >= 2 && IsHex(s[0]) && IsHex(s[1]) && FromHexAccepts(s[2..]))
  }

  function Split(text: string, current: string): (pieces: seq<string>)
  {
    if text == "" then [current]
    else if text[0] == ',' then [current] + Split(text[1..], "")
    else Split(text[1..], current + [text[0]])
  }

  function Strip(s: string): (r: string)
    ensures |r| <= |s|
    decreases |s|
  {
    if s == "" then s
    else if IsSpace(s[0]) then Strip(s[1..])
    else if IsSpace(s[|s| - 1]) then Strip(s[..|s| - 1])
    else s
  }

  function KeepHops(pieces: seq<string>): (hops: seq<string>)
    ensures forall h :: h in hops ==> h != ""
  {
    if pieces == [] then []
    else
      var hop := Lower(Strip(pieces[0]));
      (if hop == "" then [] else [hop]) + KeepHops(pieces[1..])
  }

  function Hops(text: string): seq<string>
  {
    KeepHops(Split(text, ""))
  }

  function Concat(hops: seq<string>): string
  {
    if hops == [] then "" else hops[0] + Concat(hops[1..])
  }

  /** The complaint about the first unacceptable hop, if any. */
  function FirstFault(hops: seq<string>, width: nat): (fault: Option<RouteError>)
    ensures fault.None? <==> forall h :: h in hops ==> |h| == width && FromHexAccepts(h)
  {
    if hops == [] then None
    else if |hops[0]| != width then Some(MixedWidths)
    else if !FromHexAccepts(hops[0]) then Some(NotHex)
    else FirstFault(hops[1..], width)
  }

  function Explicit(hops: seq<string>): (r: Parsed)
  {
    if hops == [] then Err(NoHops)
    else
      var width := |hops[0]|;
      if width !in {2, 4, 6} then Err(BadWidth)
      else match FirstFault(hops, width)
        case Some(fault) => Err(fault)
        case None =>
          Assemble(hops, width)
  }

  /** Hops of one even width, put together if they fit in a path. */
  function Assemble(hops: seq<string>, width: nat): (r: Parsed)
    requires width >= 2
  {
    if |hops| * (width / 2) > MAX_PATH_SIZE then Err(TooLong)
    else Ok(Route(Concat(hops), |hops|, width / 2 - 1))
  }

  /** The validation loop: the first hop of another width or that is not hex. */
  method CheckHops(hops: seq<string>, width: nat) returns (fault: Option<RouteError>)
    ensures fault == FirstFault(hops, width)
  {
    var i := 0;
    while i < |hops|
      invariant 0 <= i <= |hops|
      invariant FirstFault(hops, width) == FirstFault(hops[i..], width)
    {
      assert hops[i..][0] == hops[i] && hops[i..][1..] == hops[i + 1..];
      if |hops[i]| != width {
        return Some(MixedWidths);
      }
      if !FromHexAccepts(hops[i]) {
        return Some(NotHex);
      }
      i := i + 1;
    }
    fault := None;
  }

  /** The hop at k is the first of another width than the first one, or not hex. */
  ghost predicate FirstBadHop(hops: seq<string>, k: nat)
    requires k < |hops|
  {
    && (|hops[k]| != |hops[0]| || !FromHexAccepts(hops[k]))
    && forall j :: 0 <= j < k ==> |hops[j]| == |hops[0]| && FromHexAccepts(hops[j])
  }

  lemma {:induction false} FirstFaultAt(hops: seq<string>, width: nat) returns (k: nat)
    ensures k <= |hops| && forall j :: 0 <= j < k ==> |hops[j]| == width && FromHexAccepts(hops[j])
    ensures k < |hops| ==> (|hops[k]| != width || !FromHexAccepts(hops[k]))
    ensures FirstFault(hops, width) ==
      if k == |hops| then None else if |hops[k]| != width then Some(MixedWidths) else Some(NotHex)
  {
    k := 0;
    if hops != [] && |hops[0]| == width && FromHexAccepts(hops[0]) {
      var n := FirstFaultAt(hops[1..], width);
      assert forall j :: 1 <= j <= n && j < |hops| ==> hops[j] == hops[1..][j - 1];
      k := n + 1;
    }
  }

  /** Which routes are accepted, and the error for every other one, by the first hop that is at fault. */
  lemma ExplicitOutcome(hops: seq<string>)
    ensures hops == [] ==> Explicit(hops) == Err(NoHops)
    ensures hops != [] && |hops[0]| !in {2, 4, 6} ==> Explicit(hops) == Err(BadWidth)
    ensures hops != [] && |hops[0]| in {2, 4, 6} ==>
      forall k: nat :: k < |hops| && FirstBadHop(hops, k) ==>
        Explicit(hops) == Err(if |hops[k]| != |hops[0]| then MixedWidths else NotHex)
    ensures (&& hops != [] && |hops[0]| in {2, 4, 6}
             && forall h :: h in hops ==> |h| == |hops[0]| && FromHexAccepts(h)) ==>
      Explicit(hops) == if |hops| * (|hops[0]| / 2) > 64 then Err(TooLong)
        else Ok(Route(Concat(hops), |hops|, |hops[0]| / 2 - 1))
  {
    if hops != [] && |hops[0]| in {2, 4, 6} {
      var n := FirstFaultAt(hops, |hops[0]|);
      forall k: nat | k < |hops| && FirstBadHop(hops, k)
        ensures Explicit(hops) == Err(if |hops[k]| != |hops[0]| then MixedWidths else NotHex)
      {
        assert n == k;
      }
      assert n < |hops| ==> hops[n] in hops;
    }
  }

  method ParseExplicitHopRoute(text: string) returns (r: Parsed)
    ensures r == Explicit(Hops(text))
  {
    var hops := Hops(text);
    if hops == [] {
      return Err(NoHops);
    }
    var width := |hops[0]|;
    if width !in {2, 4, 6} {
      return Err(BadWidth);
    }
    var fault := CheckHops(hops, width);
    if fault.Some? {
      return Err(fault.value);
    }
    r := Assemble(hops, width);
  }

  /** range(0, len, width) slices */
  function Chunks(s: string, width: nat): (r: seq<string>)
    requires width > 0
  {
    if |s| == 0 then []
    else if |s| <= width then [s]
    else [s[..width]] + Chunks(s[width..], width)
  }

  function SplitPathHex(path: string, hops: int): (r: seq<string>)
  {
    if path == "" || hops <= 0 then []
    else
      var width := |path| / hops;
      if width < 2 || width % 2 != 0 || width * hops != |path| then Chunks(path, 2) else Chunks(path, width)
  }

  lemma MulOneMore(n: int, width: int)
    ensures (n + 1) * width == n * width + width
  {
  }

  lemma {:induction false} ConcatLength(hops: seq<string>, width: nat)
    requires forall h :: h in hops ==> |h| == width
    ensures |Concat(hops)| == |hops| * width
  {
    if hops != [] {
      assert hops[0] in hops && forall h :: h in hops[1..] ==> h in hops;
      ConcatLength(hops[1..], width);
      MulOneMore(|hops| - 1, width);
    }
  }

  lemma {:induction false} ChunksOfConcat(hops: seq<string>, width: nat)
    requires width > 0 && forall h :: h in hops ==> |h| == width
    ensures Chunks(Concat(hops), width) == hops
  {
    if hops != [] {
      var rest := Concat(hops[1..]);
      ChunksOfConcat(hops[1..], width);
      ConcatLength(hops[1..], width);
      assert (hops[0] + rest)[..width] == hops[0] && (hops[0] + rest)[width..] == rest;
      if |hops| == 1 {
        assert hops == [hops[0]] && rest == "";
        assert hops[0] + rest == hops[0];
      } else {
        MulAtLeast(|hops| - 1, width);
        assert hops == [hops[0]] + hops[1..];
      }
    }
  }

  /** Shape of every accepted explicit route: hop count, width, and path length in characters. */
  lemma ExplicitShape(hops: seq<string>)
    requires Explicit(hops).Ok?
    ensures var r := Explicit(hops).route;
      && r.len == |hops| && 1 <= r.len <= 64 && 0 <= r.mode <= 2
      && |r.path| == 2 * (|hops| * (r.mode + 1)) && |hops| * (r.mode + 1) <= 64
  {
    var width := |hops[0]|;
    ConcatLength(hops, width);
    assert FirstFault(hops, width).None?;
    assert width == 2 * (width / 2);
    assert |hops| * width == 2 * (|hops| * (width / 2));
  }

  /** The stored path splits back into exactly the hops that were typed. */
  lemma ExplicitSplitsBack(hops: seq<string>)
    requires Explicit(hops).Ok?
    ensures SplitPathHex(Explicit(hops).route.path, Explicit(hops).route.len) == hops
  {
    var width := |hops[0]|;
    assert FirstFault(hops, width).None?;
    ConcatLength(hops, width);
    ChunksOfConcat(hops, width);
    DivModUnique(|hops| * width, |hops|, width, 0);
    MulAtLeast(|hops|, width);
  }

  /**
   Storing an explicit route keeps it, exactly up to 63 hops. A 64-hop route is accepted by the parser
   but its hop count reads as packed byte 0x40, so the next repair empties it.
   */
  lemma ExplicitSurvivesRepairExactly(hops: seq<string>)
    requires Explicit(hops).Ok?
    ensures Again(Explicit(hops).route) == Explicit(hops).route <==> |hops| <= 63
    ensures |hops| == 64 ==> Again(Explicit(hops).route) == Route("", 0, 1)
  {
    ExplicitShape(hops);
  }

  // Any list of hops that strip() and lower() leave alone can be typed

  function JoinHops(hops: seq<string>): string
    requires hops != []
  {
    if |hops| == 1 then hops[0] else hops[0] + "," + JoinHops(hops[1..])
  }

  predicate Typeable(hop: string)
  {
    hop != "" && Lower(Strip(hop)) == hop && ',' !in hop
  }

  lemma {:induction false} SplitAtComma(piece: string, rest: string, current: string)
    requires ',' !in piece
    ensures Split(piece, current) == [current + piece]
    ensures Split(piece + "," + rest, current) == [current + piece] + Split(rest, "")
  {
    if piece == "" {
      assert current + piece == current && piece + "," + rest == "," + rest;
      assert ("," + rest)[1..] == rest;
    } else {
      SplitAtComma(piece[1..], rest, current + [piece[0]]);
      assert current + [piece[0]] + piece[1..] == current + piece;
      assert (piece + "," + rest)[1..] == piece[1..] + "," + rest;
    }
  }

  lemma KeepsTypeable(hop: string, pieces: seq<string>)
    requires Typeable(hop)
    ensures KeepHops([hop] + pieces) == [hop] + KeepHops(pieces)
  {
    assert ([hop] + pieces)[1..] == pieces;
  }

  lemma {:induction false} TypedHopsComeBack(hops: seq<string>)
    requires hops != [] && forall h :: h in hops ==> Typeable(h)
    ensures Hops(JoinHops(hops)) == hops
  {
    var first := hops[0];
    assert first in hops && "" + first == first;
    if |hops| == 1 {
      SplitAtComma(first, "", "");
      KeepsTypeable(first, []);
      assert [first] + [] == [first] && KeepHops([]) == [];
      assert hops == [first];
    } else {
      var rest := JoinHops(hops[1..]);
      SplitAtComma(first, rest, "");
      KeepsTypeable(first, Split(rest, ""));
      TypedHopsComeBack(hops[1..]);
      assert hops == [first] + hops[1..];
    }
  }

  /** Such routes can be typed: 64 one-byte hops are within the size limit. */
  lemma SixtyFourHopsAreAccepted() returns (text: string)
    ensures Explicit(Hops(text)).Ok? && |Hops(text)| == 64
  {
    var hops: seq<string> := seq(64, _ => "ab");
    assert Typeable("ab") && FromHexAccepts("ab");
    assert FirstFault(hops, 2).None?;
    TypedHopsComeBack(hops);
    text := JoinHops(hops);
  }

  // What "valid hex" means: bytes.fromhex() allows blanks between the digit pairs

  ghost predicate PureHex(s: string)
  {
    forall i :: 0 <= i < |s| ==> IsHex(s[i])
  }

  /** A three-byte hop typed as two bytes with two blanks between them. */
  predicate HasBlanks(hop: string)
  {
    |hop| == 6 && IsAsciiSpace(hop[2])
  }

  /** Bytes that bytes.fromhex() returns. */
  function DecodedLength(s: string): nat
    requires FromHexAccepts(s)
  {
    if s == "" then 0 else if IsAsciiSpace(s[0]) then DecodedLength(s[1..]) else 1 + DecodedLength(s[2..])
  }

  lemma OneCharacter(s: string)
    requires |s| == 1
    ensures FromHexAccepts(s) <==> IsAsciiSpace(s[0])
  {
    assert s[1..] == "";
  }

  lemma TwoCharacters(s: string)
    requires |s| == 2 && FromHexAccepts(s) && !IsAsciiSpace(s[1])
    ensures IsHex(s[0]) && IsHex(s[1]) && DecodedLength(s) == 1
  {
    OneCharacter(s[1..]);
    assert s[2..] == "";
  }

  /** An accepted hop without outer blanks is pure hex, unless it has blanks in the middle. */
  lemma HopIsPureHexExactly(hop: string)
    requires |hop| in {2, 4, 6} && FromHexAccepts(hop) && !IsAsciiSpace(hop[0]) && !IsAsciiSpace(hop[|hop| - 1])
    ensures PureHex(hop) <==> !HasBlanks(hop)
    ensures DecodedLength(hop) == |hop| / 2 - (if HasBlanks(hop) then 1 else 0)
  {
    if |hop| == 2 {
      TwoCharacters(hop);
    } else if |hop| == 4 {
      FourCharacters(hop);
    } else {
      assert IsHex(hop[0]) && IsHex(hop[1]);
      var rest := hop[2..];
      if IsAsciiSpace(rest[0]) {
        ThreeCharacters(rest[1..]);
      } else {
        FourCharacters(rest);
      }
    }
  }

  lemma ThreeCharacters(s: string)
    requires |s| == 3 && FromHexAccepts(s) && !IsAsciiSpace(s[2])
    ensures IsAsciiSpace(s[0]) && IsHex(s[1]) && IsHex(s[2]) && DecodedLength(s) == 1
  {
    OneCharacter(s[2..]);
    TwoCharacters(s[1..]);
  }

  lemma FourCharacters(s: string)
    requires |s| == 4 && FromHexAccepts(s) && !IsAsciiSpace(s[0]) && !IsAsciiSpace(s[3])
    ensures PureHex(s) && DecodedLength(s) == 2
  {
    assert IsHex(s[0]) && IsHex(s[1]);
    var rest := s[2..];
    OneCharacter(rest[1..]);
    TwoCharacters(rest);
    assert s == [s[0], s[1], rest[0], rest[1]];
  }

  predicate IsTrimmed(hop: string)
  {
    hop != "" && !IsAsciiSpace(hop[0]) && !IsAsciiSpace(hop[|hop| - 1])
  }

  ghost predicate Trimmed(hops: seq<string>)
  {
    forall h :: h in hops ==> IsTrimmed(h)
  }

  lemma {:induction false} StripTrims(s: string)
    ensures Strip(s) != "" ==> !IsSpace(Strip(s)[0]) && !IsSpace(Strip(s)[|Strip(s)| - 1])
    decreases |s|
  {
    if s != "" {
      if IsSpace(s[0]) {
        StripTrims(s[1..]);
      } else if IsSpace(s[|s| - 1]) {
        StripTrims(s[..|s| - 1]);
      }
    }
  }

  lemma StrippedIsTrimmed(piece: string)
    ensures Lower(Strip(piece)) != "" ==> IsTrimmed(Lower(Strip(piece)))
  {
    StripTrims(piece);
  }

  lemma {:induction false} KeptHopsAreTrimmed(pieces: seq<string>)
    ensures Trimmed(KeepHops(pieces))
  {
    if pieces != [] {
      StrippedIsTrimmed(pieces[0]);
      KeptHopsAreTrimmed(pieces[1..]);
    }
  }

  ghost function BlankedHops(hops: seq<string>): nat
  {
    if hops == [] then 0 else (if HasBlanks(hops[0]) then 1 else 0) + BlankedHops(hops[1..])
  }

  lemma {:induction false} HexConcatenates(a: string, b: string)
    requires FromHexAccepts(a) && FromHexAccepts(b)
    ensures FromHexAccepts(a + b) && DecodedLength(a + b) == DecodedLength(a) + DecodedLength(b)
  {
    if a == "" {
      assert a + b == b;
    } else {
      var n := if IsAsciiSpace(a[0]) then 1 else 2;
      assert (a + b)[n..] == a[n..] + b;
      HexConcatenates(a[n..], b);
    }
  }

  /** Bytes and purity of the concatenated path, from those of its hops. */
  lemma {:induction false} ConcatDecodes(hops: seq<string>, width: nat)
    requires width in {2, 4, 6} && Trimmed(hops) && forall h :: h in hops ==> |h| == width && FromHexAccepts(h)
    ensures FromHexAccepts(Concat(hops))
    ensures DecodedLength(Concat(hops)) + BlankedHops(hops) == |hops| * (width / 2)
    ensures PureHex(Concat(hops)) <==> BlankedHops(hops) == 0
  {
    if hops != [] {
      assert hops[0] in hops && forall h :: h in hops[1..] ==> h in hops;
      ConcatDecodes(hops[1..], width);
      HopBefore(hops[0], Concat(hops[1..]), width);
      MulOneMore(|hops| - 1, width / 2);
    }
  }

  /** One hop put before a path: its bytes add up, and purity needs both. */
  lemma HopBefore(hop: string, rest: string, width: nat)
    requires width in {2, 4, 6} && |hop| == width && IsTrimmed(hop) && FromHexAccepts(hop) && FromHexAccepts(rest)
    ensures FromHexAccepts(hop + rest)
    ensures DecodedLength(hop + rest) + (if HasBlanks(hop) then 1 else 0) == width / 2 + DecodedLength(rest)
    ensures PureHex(hop + rest) <==> !HasBlanks(hop) && PureHex(rest)
  {
    HopIsPureHexExactly(hop);
    HexConcatenates(hop, rest);
    PureHexConcatenates(hop, rest);
  }

  lemma PureHexConcatenates(a: string, b: string)
    ensures PureHex(a + b) <==> PureHex(a) && PureHex(b)
  {
    assert forall i :: 0 <= i < |a| ==> (a + b)[i] == a[i];
    assert forall i :: 0 <= i < |b| ==> (a + b)[|a| + i] == b[i];
  }

  lemma {:induction false} NoBlanksExactly(hops: seq<string>)
    ensures BlankedHops(hops) == 0 <==> forall h :: h in hops ==> !HasBlanks(h)
  {
    if hops != [] {
      NoBlanksExactly(hops[1..]);
      assert hops == [hops[0]] + hops[1..];
    }
  }

  /**
   An accepted route text always decodes as hex. Its path is made of hex digits only, and decodes to
   hops times bytes per hop, exactly when no hop has blanks in the middle; each such hop costs one byte.
   Routes of one- and two-byte hops never have any.
   */
  lemma ExplicitIsPureHexExactly(text: string, hops: seq<string>)
    requires hops == Hops(text) && Explicit(hops).Ok?
    ensures var r := Explicit(hops).route;
      && FromHexAccepts(r.path)
      && DecodedLength(r.path) == r.len * (r.mode + 1) - BlankedHops(hops)
      && (PureHex(r.path) <==> forall h :: h in hops ==> !HasBlanks(h))
      && (r.mode < 2 ==> PureHex(r.path))
  {
    KeptHopsAreTrimmed(Split(text, ""));
    TrimmedRouteDecodes(hops);
  }

  lemma TrimmedRouteDecodes(hops: seq<string>)
    requires Explicit(hops).Ok? && Trimmed(hops)
    ensures var r := Explicit(hops).route;
      && FromHexAccepts(r.path)
      && DecodedLength(r.path) == r.len * (r.mode + 1) - BlankedHops(hops)
      && (PureHex(r.path) <==> forall h :: h in hops ==> !HasBlanks(h))
      && (r.mode < 2 ==> PureHex(r.path))
  {
    var width := |hops[0]|;
    assert FirstFault(hops, width).None?;
    ConcatDecodes(hops, width);
    NoBlanksExactly(hops);
    assert Explicit(hops).route == Route(Concat(hops), |hops|, width / 2 - 1);
    assert width < 6 ==> forall h :: h in hops ==> !HasBlanks(h);
  }

  /** The blanks are real: two digits, two blanks and two digits are accepted as a three-byte hop and stored. */
  lemma BlanksInsideAHopAreAccepted(hop: string)
    requires |hop| == 6 && Lower(hop) == hop
    requires IsHex(hop[0]) && IsHex(hop[1]) && IsHex(hop[4]) && IsHex(hop[5])
    requires IsAsciiSpace(hop[2]) && IsAsciiSpace(hop[3])
    ensures Hops(hop) == [hop] && HasBlanks(hop) && Explicit([hop]) == Ok(Route(hop, 1, 2))
  {
    BlanksAreHex(hop);
    assert Strip(hop) == hop && ',' !in hop && JoinHops([hop]) == hop;
    TypedHopsComeBack([hop]);
    assert [hop][1..] == [] && Concat([hop]) == hop + "";
    assert FirstFault([hop], 6).None?;
  }

  lemma BlanksAreHex(hop: string)
    requires |hop| == 6 && IsHex(hop[0]) && IsHex(hop[1]) && IsHex(hop[4]) && IsHex(hop[5])
    requires IsAsciiSpace(hop[2]) && IsAsciiSpace(hop[3])
    ensures FromHexAccepts(hop)
  {
    var end := hop[4..];
    assert end[2..] == "" && FromHexAccepts(end);
    assert hop[3..][1..] == end && hop[2..][1..] == hop[3..];
  }

  // ---------------------------------------------------------------------------------------------
  // Overrides keep the unset state

  datatype Triple = Triple(path: Option<string>, len: Option<int>, mode: Option<int>)

  const UNSET := Triple(None, None, None)

  function Whole(r: Route): Triple
  {
    Triple(Some(r.path), Some(r.len), Some(r.mode))
  }

  /** normalize_route_override */
  function RepairOverride(t: Triple): Triple
  {
    if t.len.None? then UNSET else Whole(Repair(t.path, t.len, t.mode))
  }
}
