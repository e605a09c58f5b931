/** The non-cryptographic rules of the Type III packet format as
    lib/mixminion/BuildMessage.py applies them: decoding tags, where the
    payload checksum sits, the header space budget of the routing
    information, the argument checks of packet building, the order in which
    decodePayload tries its keys, and the order of the secrets and of the
    layers of encryption.  SHA-1, Lioness, RSA and the servers' routing
    information are parameters. */
module BuildMessage {
  import opened Common

  /** Sizes of the Type III packet format (module mixminion.Packet). */
  const PAYLOAD_LEN: nat := 28672
  const HEADER_LEN: nat := 2048
  const TAG_LEN: nat := 20
  const OAEP_OVERHEAD: nat := 42
  const MIN_SUBHEADER_LEN: nat := 42
  const ENC_SUBHEADER_LEN: nat := 256
  const MIN_EXIT_TYPE: int := 0x100
  const DROP_TYPE: int := 0
  const SECRET_LEN: nat := 16

  /** A server descriptor (ServerInfo), by identity. */
  type ServerId = nat

  /** path[i].getRoutingFor(path[i+1], swap): (routing type, routing info). */
  type RoutingFor = (ServerId, ServerId, bool) -> (int, seq<byte>)

  datatype Result<T> = Ok(value: T) | MixError(msg: string)

  // ------------------------------------------------------------------
  // Decoding tags and payload checksums

  /** _getRandomTag: the first byte drawn with its top bit cleared
      (ord(b) & 0x7f), then TAG_LEN - 1 more bytes. */
  function RandomTag(first: byte, rest: seq<byte>): (tag: seq<byte>)
    requires |rest| == TAG_LEN - 1
    ensures |tag| == TAG_LEN
    ensures tag[0] < 128
    ensures tag[1..] == rest
  {
    [first % 128] + rest
  }

  /** Every tag whose first byte has its top bit clear can be drawn, and
      drawing it from its own bytes gives it back. */
  lemma RandomTagOnto(tag: seq<byte>)
    requires |tag| == TAG_LEN && tag[0] < 128
    ensures RandomTag(tag[0], tag[1..]) == tag
  {
  }

  /** Drawing a byte with the top bit set gives the same tag as the byte
      with that bit cleared. */
  lemma RandomTagIgnoresTopBit(first: byte, rest: seq<byte>)
    requires |rest| == TAG_LEN - 1 && first >= 128
    ensures RandomTag(first, rest) == RandomTag(first - 128, rest)
  {
  }

  /** Python's s[i:]: empty once i is past the end. */
  function From<T>(s: seq<T>, i: nat): (r: seq<T>)
    ensures i <= |s| ==> r == s[i..]
    ensures i > |s| ==> r == []
  {
    if i <= |s| then s[i..] else []
  }

  /** _checkPayload: with the top bit of byte 0 set (a fragment) the hash
      is bytes [3, 23) over what follows byte 23; otherwise (a singleton)
      bytes [2, 22) over what follows byte 22.  Slices clamp as Python's
      do. */
  predicate CheckPayload(payload: seq<byte>, sha1: seq<byte> -> Digest)
    requires |payload| >= 1
  {
    if payload[0] >= 128 then Slice(payload, 3, 23) == sha1(From(payload, 23))
    else Slice(payload, 2, 22) == sha1(From(payload, 22))
  }

  /** A singleton payload (2-byte size, top bit clear) carrying the hash of
      its data right after the size passes the check. */
  lemma SingletonChecks(size: seq<byte>, data: seq<byte>, sha1: seq<byte> -> Digest)
    requires |size| == 2 && size[0] < 128
    ensures CheckPayload(size + sha1(data) + data, sha1)
  {
    var p := size + sha1(data) + data;
    assert Slice(p, 2, 22) == sha1(data);
    assert From(p, 22) == data;
  }

  /** A fragment payload (3-byte index, top bit set) carrying the hash of
      its data right after the index passes the check. */
  lemma FragmentChecks(index: seq<byte>, data: seq<byte>, sha1: seq<byte> -> Digest)
    requires |index| == 3 && index[0] >= 128
    ensures CheckPayload(index + sha1(data) + data, sha1)
  {
    var p := index + sha1(data) + data;
    assert Slice(p, 3, 23) == sha1(data);
    assert From(p, 23) == data;
  }

  /** The check looks only at where the hash sits: a payload whose bytes
      there differ from the hash of the rest fails. */
  lemma WrongHashFails(payload: seq<byte>, sha1: seq<byte> -> Digest)
    requires |payload| == PAYLOAD_LEN && payload[0] < 128
    requires payload[2..22] != sha1(payload[22..])
    ensures !CheckPayload(payload, sha1)
  {
    assert Slice(payload, 2, 22) == payload[2..22];
  }

  // ------------------------------------------------------------------
  // Routing information and the header space budget

  /** The routing list of _getRouting: each node routes to the next one
      (swap = 0), and the last entry is the exit (exitType, exitInfo). */
  function Routes(path: seq<ServerId>, exitType: int, exitInfo: seq<byte>, routingFor: RoutingFor)
    : (routing: seq<(int, seq<byte>)>)
    ensures |routing| == if |path| == 0 then 1 else |path|
    ensures forall i :: 0 <= i < |path| - 1 ==> routing[i] == routingFor(path[i], path[i + 1], false)
    ensures routing[|routing| - 1] == (exitType, exitInfo)
  {
    if |path| <= 1 then [(exitType, exitInfo)]
    else
      var rest := Routes(path[1..], exitType, exitInfo, routingFor);
      assert forall i :: 1 <= i < |path| ==> path[i] == path[1..][i - 1];
      [routingFor(path[0], path[1], false)] + rest
  }

  /** What a subheader adds to the header: its routing info, the OAEP
      padding and the fixed subheader fields. */
  function SubheaderSize(ri: seq<byte>): nat
  {
    |ri| + OAEP_OVERHEAD + MIN_SUBHEADER_LEN
  }

  function Sizes(routing: seq<(int, seq<byte>)>): (sizes: seq<int>)
    ensures |sizes| == |routing|
    ensures forall i :: 0 <= i < |routing| ==> sizes[i] == SubheaderSize(routing[i].1)
  {
    seq(|routing|, i requires 0 <= i < |routing| => SubheaderSize(routing[i].1) as int)
  }

  datatype RoutingPlan = RoutingPlan(routing: seq<(int, seq<byte>)>, sizes: seq<int>, totalSize: int)

  /** _getRouting(path, exitType, exitInfo): the routing list, the size of
      each subheader and their total, unless they do not fit in a header or
      leave too little room to pad the last subheader to an RSA block. */
  function GetRouting(path: seq<ServerId>, exitType: int, exitInfo: seq<byte>, routingFor: RoutingFor)
    : (r: Result<RoutingPlan>)
    ensures r.Ok? ==> r.value.routing == Routes(path, exitType, exitInfo, routingFor)
    ensures r.Ok? ==> r.value.sizes == Sizes(r.value.routing) && r.value.totalSize == Sum(r.value.sizes)
    ensures r.Ok? <==>
              var sizes := Sizes(Routes(path, exitType, exitInfo, routingFor));
              Sum(sizes) <= HEADER_LEN && HEADER_LEN - Sum(sizes) + sizes[|sizes| - 1] >= ENC_SUBHEADER_LEN
  {
    var routing := Routes(path, exitType, exitInfo, routingFor);
    var sizes := Sizes(routing);
    var totalSize := Sum(sizes);
    if totalSize > HEADER_LEN then MixError("Routing info won't fit in header")
    else if HEADER_LEN - totalSize + sizes[|sizes| - 1] < ENC_SUBHEADER_LEN then
      MixError("Routing info won't fit in header")
    else Ok(RoutingPlan(routing, sizes, totalSize))
  }

  /** Every subheader costs at least OAEP_OVERHEAD + MIN_SUBHEADER_LEN
      bytes, so a routing that fits has at most 24 entries, and the header
      holds all of them. */
  lemma RoutingFitsHeader(path: seq<ServerId>, exitType: int, exitInfo: seq<byte>, routingFor: RoutingFor)
    requires GetRouting(path, exitType, exitInfo, routingFor).Ok?
    ensures var plan := GetRouting(path, exitType, exitInfo, routingFor).value;
            plan.totalSize <= HEADER_LEN &&
            |plan.routing| * (OAEP_OVERHEAD + MIN_SUBHEADER_LEN) <= plan.totalSize &&
            |plan.routing| <= 24
  {
    var plan := GetRouting(path, exitType, exitInfo, routingFor).value;
    SumAtLeast(plan.sizes, OAEP_OVERHEAD + MIN_SUBHEADER_LEN);
  }

  lemma {:induction false} SumAtLeast(s: seq<int>, m: int)
    requires forall i :: 0 <= i < |s| ==> s[i] >= m
    ensures Sum(s) >= |s| * m
  {
    if s != [] {
      SumAtLeast(s[1..], m);
      assert |s| * m == m + (|s| - 1) * m;
    }
  }

  /** A shorter exit address never stops a routing from fitting: the total
      shrinks and the room left for the last subheader stays the same. */
  lemma ShorterExitStillFits(path: seq<ServerId>, exitType: int, exitInfo: seq<byte>, extra: seq<byte>,
                             routingFor: RoutingFor)
    requires GetRouting(path, exitType, exitInfo + extra, routingFor).Ok?
    ensures GetRouting(path, exitType, exitInfo, routingFor).Ok?
  {
    var long := Sizes(Routes(path, exitType, exitInfo + extra, routingFor));
    var short := Sizes(Routes(path, exitType, exitInfo, routingFor));
    ShorterExitSizes(path, exitType, exitInfo, extra, routingFor);
    SumLastShrinks(short, long, |extra|);
  }

  /** Only the last subheader depends on the exit address. */
  lemma ShorterExitSizes(path: seq<ServerId>, exitType: int, exitInfo: seq<byte>, extra: seq<byte>,
                         routingFor: RoutingFor)
    ensures var long := Sizes(Routes(path, exitType, exitInfo + extra, routingFor));
            var short := Sizes(Routes(path, exitType, exitInfo, routingFor));
            |short| == |long| > 0 && short[..|long| - 1] == long[..|long| - 1] &&
            short[|long| - 1] == long[|long| - 1] - |extra|
  {
    var rl := Routes(path, exitType, exitInfo + extra, routingFor);
    var rs := Routes(path, exitType, exitInfo, routingFor);
    var long := Sizes(rl);
    var short := Sizes(rs);
    var n := |long|;
    forall i | 0 <= i < n - 1
      ensures short[i] == long[i]
    {
      assert rs[i] == routingFor(path[i], path[i + 1], false);
      assert rl[i] == routingFor(path[i], path[i + 1], false);
    }
    assert short[..n - 1] == long[..n - 1];
  }

  lemma SumLastShrinks(short: seq<int>, long: seq<int>, d: int)
    requires |short| == |long| > 0 && short[..|long| - 1] == long[..|long| - 1]
    requires short[|long| - 1] == long[|long| - 1] - d
    ensures Sum(short) == Sum(long) - d
  {
    var n := |long|;
    assert long == long[..n - 1] + [long[n - 1]];
    assert short == short[..n - 1] + [short[n - 1]];
    SumAppend(long[..n - 1], [long[n - 1]]);
    SumAppend(short[..n - 1], [short[n - 1]]);
  }

  // ------------------------------------------------------------------
  // checkPathLength

  /** The outcome of checkPathLength. */
  datatype PathCheck =
    | Fits
    | WontFit(leg: Option<nat>)   // UIError; the leg (1 or 2) is named when explicitSwap is set
    | PathIndexError              // path1[-1] or path2[0] on an empty leg

  const DUMMY_TAG: seq<byte> := [88, 88, 88, 88, 88, 88, 88, 88, 88, 88, 88, 88, 88, 88, 88, 88, 88, 88, 88, 88]   // "X" * 20

  /** The exit address checkPathLength sizes the second leg with, as
      written: the dummy tag is added unless suppressTag is set, but the
      else branch also replaces a real address with "" whenever suppressTag
      is set. */
  function CheckedExitInfoAsWritten(exitInfo: Option<seq<byte>>, suppressTag: bool): seq<byte>
  {
    if !suppressTag && exitInfo.Some? then exitInfo.value + DUMMY_TAG else []
  }

  /** The exit address checkPathLength evidently means to size: "" only
      when there is none, the address itself when the tag is suppressed,
      and the address with a dummy tag otherwise. */
  function CheckedExitInfo(exitInfo: Option<seq<byte>>, suppressTag: bool): (info: seq<byte>)
    ensures exitInfo.Some? ==> |info| >= |exitInfo.value| && info[..|exitInfo.value|] == exitInfo.value
  {
    if exitInfo.None? then []
    else if suppressTag then exitInfo.value
    else exitInfo.value + DUMMY_TAG
  }

  /** With both legs given, path1[-1] and path2[0] exist. */
  predicate LegEndsExist(path1: Option<seq<ServerId>>, path2: Option<seq<ServerId>>)
  {
    path1.Some? && path2.Some? ==> path1.value != [] && path2.value != []
  }

  /** The first leg, ending in the swap hop to the second leg, fits in a
      header (vacuous unless both legs are given). */
  predicate FirstLegRoutes(path1: Option<seq<ServerId>>, path2: Option<seq<ServerId>>, routingFor: RoutingFor)
    requires LegEndsExist(path1, path2)
  {
    path1.Some? && path2.Some? ==>
      var hop := routingFor(path1.value[|path1.value| - 1], path2.value[0], true);
      GetRouting(path1.value, hop.0, hop.1, routingFor).Ok?
  }

  /** The second leg, ending in the exit address, fits in a header
      (vacuous when it is absent or empty). */
  predicate SecondLegRoutes(path2: Option<seq<ServerId>>, exitType: int, info: seq<byte>, routingFor: RoutingFor)
  {
    path2.Some? && path2.value != [] ==> GetRouting(path2.value, exitType, info, routingFor).Ok?
  }

  /** The body of checkPathLength once the second leg's exit address is
      known: the first leg is sized with its swap hop to the second leg, the
      second with the exit address; a leg that does not fit is an error,
      naming the leg only with explicitSwap. */
  function PathLengthVerdict(path1: Option<seq<ServerId>>, path2: Option<seq<ServerId>>, exitType: int,
                             info: seq<byte>, explicitSwap: bool, routingFor: RoutingFor)
    : (r: PathCheck)
    // path1[-1] or path2[0] on an empty leg raises IndexError
    ensures r == PathIndexError <==> !LegEndsExist(path1, path2)
    // the check passes exactly when both legs fit
    ensures r == Fits <==>
              LegEndsExist(path1, path2) && FirstLegRoutes(path1, path2, routingFor) &&
              SecondLegRoutes(path2, exitType, info, routingFor)
    // a failure names the leg only with explicitSwap: the first leg when it
    // does not fit, else the second
    ensures r.WontFit? ==> (r.leg.Some? <==> explicitSwap)
    ensures r.WontFit? && explicitSwap ==>
              LegEndsExist(path1, path2) &&
              r.leg == Some(if FirstLegRoutes(path1, path2, routingFor) then 2 else 1)
  {
    if path1.Some? && path2.Some? && (path1.value == [] || path2.value == []) then PathIndexError
    else
      var err1 :=
        if path1.Some? && path2.Some? then
          var hop := routingFor(path1.value[|path1.value| - 1], path2.value[0], true);
          if GetRouting(path1.value, hop.0, hop.1, routingFor).MixError? then 1 else 0
        else 0;
      var err :=
        if err1 == 0 && path2.Some? && path2.value != [] &&
           GetRouting(path2.value, exitType, info, routingFor).MixError? then 2
        else err1;
      if err == 0 then Fits
      else if !explicitSwap then WontFit(None)
      else WontFit(Some(err))
  }

  /** checkPathLength as written. */
  function CheckPathLengthAsWritten(path1: Option<seq<ServerId>>, path2: Option<seq<ServerId>>, exitType: int,
                                    exitInfo: Option<seq<byte>>, explicitSwap: bool, suppressTag: bool,
                                    routingFor: RoutingFor): (r: PathCheck)
    ensures r == PathIndexError <==> !LegEndsExist(path1, path2)
    // the second leg is sized with the address and a dummy tag, but with ""
    // whenever the tag is suppressed, however long the real address is
    ensures !suppressTag && exitInfo.Some? ==>
              (r == Fits <==> LegEndsExist(path1, path2) && FirstLegRoutes(path1, path2, routingFor) &&
                              SecondLegRoutes(path2, exitType, exitInfo.value + DUMMY_TAG, routingFor))
    ensures suppressTag || exitInfo.None? ==>
              (r == Fits <==> LegEndsExist(path1, path2) && FirstLegRoutes(path1, path2, routingFor) &&
                              SecondLegRoutes(path2, exitType, [], routingFor))
    ensures r.WontFit? ==> (r.leg.Some? <==> explicitSwap)
    ensures r.WontFit? && explicitSwap ==>
              r.leg == Some(if FirstLegRoutes(path1, path2, routingFor) then 2 else 1)
  {
    PathLengthVerdict(path1, path2, exitType, CheckedExitInfoAsWritten(exitInfo, suppressTag), explicitSwap, routingFor)
  }

  /** With the tag suppressed, the check as written passes a one-server
      leg whose 2000-byte exit address cannot fit in any header. */
  lemma SuppressedTagCheckMissesOverflow(server: ServerId, exitType: int, routingFor: RoutingFor,
                                         exitInfo: seq<byte>)
    requires exitInfo == seq(2000, _ => 0 as byte)
    ensures CheckPathLengthAsWritten(None, Some([server]), exitType, Some(exitInfo), true, true, routingFor) == Fits
    ensures GetRouting([server], exitType, exitInfo, routingFor).MixError?
  {
    assert CheckedExitInfoAsWritten(Some(exitInfo), true) == [];
    var empty := Sizes(Routes([server], exitType, [], routingFor));
    assert empty == [84];
    assert Sum(empty) == 84;
    assert GetRouting([server], exitType, [], routingFor).Ok?;
    var big := Sizes(Routes([server], exitType, exitInfo, routingFor));
    assert big == [2084];
    assert Sum(big) == 2084;
  }

  /** checkPathLength, with the exit address sized as intended. */
  function CheckPathLength(path1: Option<seq<ServerId>>, path2: Option<seq<ServerId>>, exitType: int,
                           exitInfo: Option<seq<byte>>, explicitSwap: bool, suppressTag: bool,
                           routingFor: RoutingFor): (r: PathCheck)
    ensures r == PathIndexError <==> !LegEndsExist(path1, path2)
    // the second leg is sized with the address itself when the tag is
    // suppressed, with the address and a dummy tag otherwise, and with ""
    // only when there is no address
    ensures exitInfo.Some? ==>
              (r == Fits <==> LegEndsExist(path1, path2) && FirstLegRoutes(path1, path2, routingFor) &&
                              SecondLegRoutes(path2, exitType,
                                              if suppressTag then exitInfo.value else exitInfo.value + DUMMY_TAG,
                                              routingFor))
    ensures exitInfo.None? ==>
              (r == Fits <==> LegEndsExist(path1, path2) && FirstLegRoutes(path1, path2, routingFor) &&
                              SecondLegRoutes(path2, exitType, [], routingFor))
    ensures r.WontFit? ==> (r.leg.Some? <==> explicitSwap)
    ensures r.WontFit? && explicitSwap ==>
              r.leg == Some(if FirstLegRoutes(path1, path2, routingFor) then 2 else 1)
    // it differs from the check as written only when a real address is
    // sized with the tag suppressed
    ensures !suppressTag || exitInfo.None? ==>
              r == CheckPathLengthAsWritten(path1, path2, exitType, exitInfo, explicitSwap, suppressTag, routingFor)
  {
    PathLengthVerdict(path1, path2, exitType, CheckedExitInfo(exitInfo, suppressTag), explicitSwap, routingFor)
  }

  /** When the check passes, the second leg's header can be routed with
      the real exit address, whether or not the tag is suppressed. */
  lemma CheckPathLengthSound(path1: Option<seq<ServerId>>, path2: seq<ServerId>, exitType: int,
                             exitInfo: seq<byte>, explicitSwap: bool, suppressTag: bool, routingFor: RoutingFor)
    requires path2 != []
    requires CheckPathLength(path1, Some(path2), exitType, Some(exitInfo), explicitSwap, suppressTag, routingFor) == Fits
    ensures GetRouting(path2, exitType, exitInfo, routingFor).Ok?
  {
    if !suppressTag {
      ShorterExitStillFits(path2, exitType, exitInfo, DUMMY_TAG, routingFor);
    }
  }

  // ------------------------------------------------------------------
  // Argument checks of buildForwardPacket and _buildPacket

  /** How packet building ends before any cryptography is done. */
  datatype BuildCheck =
    | Proceed(exitInfo: seq<byte>)   // building goes on with this exit address
    | BuildMixError(msg: string)
    | BuildUIError(leg: Option<nat>)
    | BuildIndexError

  /** _buildPacket's argument checks pass: a plausible exit address and
      exit type. */
  predicate PlausibleExit(exitType: int, exitInfo: seq<byte>, suppressTag: bool)
  {
    (|exitInfo| >= TAG_LEN || suppressTag) && (exitType >= MIN_EXIT_TYPE || exitType == DROP_TYPE)
  }

  /** _buildPacket's checks for a packet whose second leg is a path (not a
      reply block): a plausible exit address and exit type, then
      checkPathLength with explicitSwap, sizing the exit address as
      intended. */
  function BuildPacketChecks(exitType: int, exitInfo: seq<byte>, path1: seq<ServerId>, path2: seq<ServerId>,
                             suppressTag: bool, routingFor: RoutingFor): (r: BuildCheck)
    ensures r.Proceed? ==> r.exitInfo == exitInfo
    ensures !r.BuildMixError? ==> PlausibleExit(exitType, exitInfo, suppressTag)
    ensures |exitInfo| < TAG_LEN && !suppressTag ==> r == BuildMixError("Implausibly short exit info")
    ensures !(|exitInfo| < TAG_LEN && !suppressTag) && exitType < MIN_EXIT_TYPE && exitType != DROP_TYPE ==>
              r == BuildMixError("Invalid exit type")
    // then path1[-1] or path2[0] on an empty leg raises IndexError
    ensures PlausibleExit(exitType, exitInfo, suppressTag) && (path1 == [] || path2 == []) ==>
              r == BuildIndexError
    // and building proceeds exactly when both legs fit in a header
    ensures PlausibleExit(exitType, exitInfo, suppressTag) && path1 != [] && path2 != [] ==>
              (r.Proceed? <==>
                 FirstLegRoutes(Some(path1), Some(path2), routingFor) &&
                 GetRouting(path2, exitType, if suppressTag then exitInfo else exitInfo + DUMMY_TAG, routingFor).Ok?)
    // otherwise the UIError names the leg that does not fit
    ensures r.BuildUIError? ==>
              r.leg == Some(if FirstLegRoutes(Some(path1), Some(path2), routingFor) then 2 else 1)
    // so a packet that proceeds has a second leg that routes its real address
    ensures r.Proceed? ==> GetRouting(path2, exitType, exitInfo, routingFor).Ok?
  {
    if |exitInfo| < TAG_LEN && !suppressTag then BuildMixError("Implausibly short exit info")
    else if exitType < MIN_EXIT_TYPE && exitType != DROP_TYPE then BuildMixError("Invalid exit type")
    else
      match CheckPathLength(Some(path1), Some(path2), exitType, Some(exitInfo), true, suppressTag, routingFor)
      case Fits =>
        CheckPathLengthSound(Some(path1), path2, exitType, exitInfo, true, suppressTag, routingFor);
        Proceed(exitInfo)
      case WontFit(leg) => BuildUIError(leg)
      case PathIndexError => BuildIndexError
  }

  /** buildForwardPacket: both legs must be non-empty; unless suppressTag
      the decoding tag drawn from the PRNG is prepended to the exit address
      before _buildPacket's checks. */
  function BuildForwardPacketChecks(payload: seq<byte>, exitType: int, exitInfo: seq<byte>,
                                    path1: seq<ServerId>, path2: seq<ServerId>, tag: seq<byte>,
                                    suppressTag: bool, routingFor: RoutingFor): (r: BuildCheck)
    requires |payload| == PAYLOAD_LEN
    requires |tag| == TAG_LEN
    ensures path1 == [] ==> r == BuildMixError("First leg of path is empty")
    ensures path1 != [] && path2 == [] ==> r == BuildMixError("Second leg of path is empty")
    ensures r.Proceed? ==> path1 != [] && path2 != [] &&
                           r.exitInfo == (if suppressTag then exitInfo else tag + exitInfo)
  {
    if path1 == [] then BuildMixError("First leg of path is empty")
    else if path2 == [] then BuildMixError("Second leg of path is empty")
    else
      var info := if suppressTag then exitInfo else tag + exitInfo;
      BuildPacketChecks(exitType, info, path1, path2, suppressTag, routingFor)
  }

  /** A forward packet with its tag never trips the short exit address
      check: the tag alone is TAG_LEN bytes. */
  lemma ForwardTagNeverShort(payload: seq<byte>, exitType: int, exitInfo: seq<byte>,
                             path1: seq<ServerId>, path2: seq<ServerId>, tag: seq<byte>, routingFor: RoutingFor)
    requires |payload| == PAYLOAD_LEN && |tag| == TAG_LEN
    ensures BuildForwardPacketChecks(payload, exitType, exitInfo, path1, path2, tag, false, routingFor) !=
              BuildMixError("Implausibly short exit info")
  {
    if path1 != [] && path2 != [] {
      assert |tag + exitInfo| >= TAG_LEN;
    }
  }

  // ------------------------------------------------------------------
  // decodePayload

  /** decodePayload's userKeys argument in its accepted forms. */
  datatype UserKeys =
    | NoUserKeys                                  // None
    | OneKey(key: seq<byte>)                      // a single key string
    | KeyDict(items: seq<(string, seq<byte>)>)    // a dict, by its items()
    | KeyList(pairs: seq<(string, seq<byte>)>)    // a sequence of (name, key)

  /** The (name, key) pairs decodePayload works through. */
  function NormalizeUserKeys(userKeys: UserKeys): (pairs: seq<(string, seq<byte>)>)
    ensures userKeys.NoUserKeys? ==> pairs == []
    ensures userKeys.OneKey? ==> pairs == [("", userKeys.key)]
    ensures userKeys.KeyDict? ==> pairs == userKeys.items
    ensures userKeys.KeyList? ==> pairs == userKeys.pairs
  {
    match userKeys
    case NoUserKeys => []
    case OneKey(k) => [("", k)]
    case KeyDict(items) => items
    case KeyList(pairs) => pairs
  }

  /** What decodePayload returns: a parsed payload (with the identity
      appended to retNym when a user key decoded it), None, or MixError. */
  datatype Decoded<P> = Parsed(payload: P, nym: Option<string>) | NothingDecoded | DecodeError(msg: string)

  const VALIDATE: seq<byte> := [86, 97, 108, 105, 100, 97, 116, 101]   // "Validate"

  /** Whether sha1(tag + userKey + "Validate") ends in a zero byte: only
      then may the payload be a reply to that key. */
  predicate MayBeReplyTo(tag: seq<byte>, userKey: seq<byte>, sha1: seq<byte> -> Digest)
  {
    sha1(tag + userKey + VALIDATE)[DIGEST_LEN - 1] == 0
  }

  /** No key among 'pairs' that may fit decodes the payload. */
  predicate NoKeyDecodes<P>(pairs: seq<(string, seq<byte>)>, payload: seq<byte>, tag: seq<byte>,
                            sha1: seq<byte> -> Digest, decodeReply: (seq<byte>, seq<byte>, seq<byte>) -> Result<P>)
  {
    forall j :: 0 <= j < |pairs| && MayBeReplyTo(tag, pairs[j].1, sha1) ==>
      decodeReply(payload, tag, pairs[j].1).MixError?
  }

  /** Key k is the first key that may fit and decodes the payload, giving
      (name, p). */
  ghost predicate FirstDecodingKey<P>(pairs: seq<(string, seq<byte>)>, payload: seq<byte>, tag: seq<byte>,
                                      sha1: seq<byte> -> Digest, decodeReply: (seq<byte>, seq<byte>, seq<byte>) -> Result<P>,
                                      k: int, name: string, p: P)
  {
    0 <= k < |pairs| && pairs[k].0 == name &&
    MayBeReplyTo(tag, pairs[k].1, sha1) && decodeReply(payload, tag, pairs[k].1) == Ok(p) &&
    NoKeyDecodes(pairs[..k], payload, tag, sha1, decodeReply)
  }

  /** The loop over the user keys: the first key that may fit and whose
      stateless reply decoding succeeds wins; a decoding that raises
      MixError moves on to the next key. */
  function TryUserKeys<P>(pairs: seq<(string, seq<byte>)>, payload: seq<byte>, tag: seq<byte>,
                          sha1: seq<byte> -> Digest,
                          decodeReply: (seq<byte>, seq<byte>, seq<byte>) -> Result<P>): (r: Option<(string, P)>)
    ensures r.Some? ==> exists k :: FirstDecodingKey(pairs, payload, tag, sha1, decodeReply, k, r.value.0, r.value.1)
    ensures r.None? ==> NoKeyDecodes(pairs, payload, tag, sha1, decodeReply)
  {
    if pairs == [] then None
    else
      var (name, key) := pairs[0];
      var here := if MayBeReplyTo(tag, key, sha1) then decodeReply(payload, tag, key) else MixError("");
      if MayBeReplyTo(tag, key, sha1) && here.Ok? then
        assert FirstDecodingKey(pairs, payload, tag, sha1, decodeReply, 0, name, here.value);
        Some((name, here.value))
      else
        var r := TryUserKeys(pairs[1..], payload, tag, sha1, decodeReply);
        LaterKeyDecodes(pairs, payload, tag, sha1, decodeReply, r);
        r
  }

  /** When the first key does not decode, the first decoding key of the
      rest is the first of all, one place further on. */
  lemma LaterKeyDecodes<P>(pairs: seq<(string, seq<byte>)>, payload: seq<byte>, tag: seq<byte>,
                           sha1: seq<byte> -> Digest, decodeReply: (seq<byte>, seq<byte>, seq<byte>) -> Result<P>,
                           r: Option<(string, P)>)
    requires pairs != []
    requires MayBeReplyTo(tag, pairs[0].1, sha1) ==> decodeReply(payload, tag, pairs[0].1).MixError?
    requires r.Some? ==> exists k :: FirstDecodingKey(pairs[1..], payload, tag, sha1, decodeReply, k, r.value.0, r.value.1)
    requires r.None? ==> NoKeyDecodes(pairs[1..], payload, tag, sha1, decodeReply)
    ensures r.Some? ==> exists k :: FirstDecodingKey(pairs, payload, tag, sha1, decodeReply, k, r.value.0, r.value.1)
    ensures r.None? ==> NoKeyDecodes(pairs, payload, tag, sha1, decodeReply)
  {
    assert forall j :: 1 <= j < |pairs| ==> pairs[j] == pairs[1..][j - 1];
    if r.Some? {
      var k :| FirstDecodingKey(pairs[1..], payload, tag, sha1, decodeReply, k, r.value.0, r.value.1);
      assert pairs[..k + 1] == [pairs[0]] + pairs[1..][..k];
      assert FirstDecodingKey(pairs, payload, tag, sha1, decodeReply, k + 1, r.value.0, r.value.1);
    }
  }

  /** What _decodeEncryptedForwardPayload does with the RSA key. */
  datatype RsaAttempt<P> = RsaNone | RsaParsed(payload: P) | RsaMixError(msg: string)

  /** decodePayload(payload, tag, key, userKeys, retNym).  parse is
      parsePayload, decodeReply _decodeStatelessReplyPayload, and
      decodeRsa _decodeEncryptedForwardPayload (None when key is None). */
  function DecodePayload<P>(payload: seq<byte>, tag: seq<byte>, hasKey: bool, userKeys: UserKeys,
                            sha1: seq<byte> -> Digest, parse: seq<byte> -> Result<P>,
                            decodeReply: (seq<byte>, seq<byte>, seq<byte>) -> Result<P>,
                            decodeRsa: (seq<byte>, seq<byte>) -> RsaAttempt<P>): (r: Decoded<P>)
    // lengths are checked first
    ensures |payload| != PAYLOAD_LEN ==> r == DecodeError("Wrong payload length")
    ensures |payload| == PAYLOAD_LEN && |tag| != 0 && |tag| != TAG_LEN ==> r == DecodeError("Wrong tag length")
    // a payload with a valid checksum is parsed before any key is tried
    ensures |payload| == PAYLOAD_LEN && (|tag| == 0 || |tag| == TAG_LEN) && CheckPayload(payload, sha1) ==>
              r == (match parse(payload) case Ok(p) => Parsed(p, None) case MixError(m) => DecodeError(m))
    // then an empty tag gives None
    ensures |payload| == PAYLOAD_LEN && |tag| == 0 && !CheckPayload(payload, sha1) ==> r == NothingDecoded
    // a reply is credited to the first user key that may fit and decodes it
    ensures r.Parsed? && r.nym.Some? ==>
              exists k :: FirstDecodingKey(NormalizeUserKeys(userKeys), payload, tag, sha1, decodeReply,
                                           k, r.nym.value, r.payload)
    // without an RSA key and with no fitting user key nothing decodes
    ensures |payload| == PAYLOAD_LEN && |tag| == TAG_LEN && !CheckPayload(payload, sha1) && !hasKey &&
            (forall k :: 0 <= k < |NormalizeUserKeys(userKeys)| ==>
               !MayBeReplyTo(tag, NormalizeUserKeys(userKeys)[k].1, sha1)) ==>
              r == NothingDecoded
  {
    var pairs := NormalizeUserKeys(userKeys);
    if |payload| != PAYLOAD_LEN then DecodeError("Wrong payload length")
    else if |tag| != 0 && |tag| != TAG_LEN then DecodeError("Wrong tag length")
    else if CheckPayload(payload, sha1) then
      match parse(payload)
      case Ok(p) => Parsed(p, None)
      case MixError(m) => DecodeError(m)
    else if |tag| == 0 then NothingDecoded
    else
      match TryUserKeys(pairs, payload, tag, sha1, decodeReply)
      case Some((name, p)) => Parsed(p, Some(name))
      case None =>
        if !hasKey then NothingDecoded
        else
          match decodeRsa(payload, tag)
          case RsaNone => NothingDecoded
          case RsaParsed(p) => Parsed(p, None)
          case RsaMixError(m) => DecodeError(m)
  }

  /** The RSA key is tried last: once a user key decodes the payload, the
      RSA key and its answer make no difference. */
  lemma UserKeysBeforeRsa<P>(payload: seq<byte>, tag: seq<byte>, userKeys: UserKeys,
                             sha1: seq<byte> -> Digest, parse: seq<byte> -> Result<P>,
                             decodeReply: (seq<byte>, seq<byte>, seq<byte>) -> Result<P>,
                             rsa1: (seq<byte>, seq<byte>) -> RsaAttempt<P>,
                             rsa2: (seq<byte>, seq<byte>) -> RsaAttempt<P>)
    requires |payload| == PAYLOAD_LEN && |tag| == TAG_LEN && !CheckPayload(payload, sha1)
    requires TryUserKeys(NormalizeUserKeys(userKeys), payload, tag, sha1, decodeReply).Some?
    ensures DecodePayload(payload, tag, true, userKeys, sha1, parse, decodeReply, rsa1) ==
            DecodePayload(payload, tag, false, userKeys, sha1, parse, decodeReply, rsa2)
    ensures DecodePayload(payload, tag, true, userKeys, sha1, parse, decodeReply, rsa1).Parsed?
  {
  }

  /** A single key string is the default identity "" with that key. */
  lemma OneKeyIsDefaultIdentity<P>(payload: seq<byte>, tag: seq<byte>, hasKey: bool, key: seq<byte>,
                                   sha1: seq<byte> -> Digest, parse: seq<byte> -> Result<P>,
                                   decodeReply: (seq<byte>, seq<byte>, seq<byte>) -> Result<P>,
                                   decodeRsa: (seq<byte>, seq<byte>) -> RsaAttempt<P>)
    ensures DecodePayload(payload, tag, hasKey, OneKey(key), sha1, parse, decodeReply, decodeRsa) ==
            DecodePayload(payload, tag, hasKey, KeyList([("", key)]), sha1, parse, decodeReply, decodeRsa)
  {
  }

  // ------------------------------------------------------------------
  // Secrets and layers of encryption

  /** Lioness keys as Crypto derives them: from a secret in payload or
      header mode, or from a hash of the payload or of header 2. */
  datatype LionessKey =
    | PayloadKey(secret: seq<byte>)
    | HeaderKey(secret: seq<byte>)
    | KeyFromPayload(payload: seq<byte>)
    | KeyFromHeader(header: seq<byte>)

  type Lioness = (seq<byte>, LionessKey) -> seq<byte>

  /** The data encrypted with each secret's payload key, in list order. */
  function PayloadLayers(data: seq<byte>, secrets: seq<seq<byte>>, encrypt: Lioness): seq<byte>
  {
    if secrets == [] then data
    else encrypt(PayloadLayers(data, secrets[..|secrets| - 1], encrypt), PayloadKey(secrets[|secrets| - 1]))
  }

  /** The data encrypted with each secret's header key, in list order. */
  function HeaderLayers(data: seq<byte>, secrets: seq<seq<byte>>, encrypt: Lioness): seq<byte>
  {
    if secrets == [] then data
    else encrypt(HeaderLayers(data, secrets[..|secrets| - 1], encrypt), HeaderKey(secrets[|secrets| - 1]))
  }

  /** Each hop in turn removing its layer with its own payload key. */
  function PeelPayload(data: seq<byte>, secrets: seq<seq<byte>>, decrypt: Lioness): seq<byte>
    decreases secrets
  {
    if secrets == [] then data else PeelPayload(decrypt(data, PayloadKey(secrets[0])), secrets[1..], decrypt)
  }

  function PeelHeader(data: seq<byte>, secrets: seq<seq<byte>>, decrypt: Lioness): seq<byte>
    decreases secrets
  {
    if secrets == [] then data else PeelHeader(decrypt(data, HeaderKey(secrets[0])), secrets[1..], decrypt)
  }

  /** The packet _constructMessage assembles: the payload encrypted for
      the second leg in reverse order, header 2 and the payload bound to each
      other, then both encrypted for the first leg in reverse order; the
      packet is header 1, header 2, payload. */
  function Constructed(secrets1: seq<seq<byte>>, secrets2: seq<seq<byte>>, header1: seq<byte>,
                       header2: seq<byte>, payload: seq<byte>, encrypt: Lioness): seq<byte>
  {
    var p := PayloadLayers(payload, Reversed(secrets2), encrypt);
    var h := encrypt(header2, KeyFromPayload(p));
    var q := encrypt(p, KeyFromHeader(h));
    header1 + HeaderLayers(h, Reversed(secrets1), encrypt) + PayloadLayers(q, Reversed(secrets1), encrypt)
  }

  /** Layers put on in reverse order come off in path order: hop 0 holds
      the outermost one. */
  lemma {:induction false} PeelReversedPayload(data: seq<byte>, secrets: seq<seq<byte>>,
                                               encrypt: Lioness, decrypt: Lioness)
    requires forall x, k :: decrypt(encrypt(x, k), k) == x
    ensures PeelPayload(PayloadLayers(data, Reversed(secrets), encrypt), secrets, decrypt) == data
  {
    if secrets != [] {
      var rest := Reversed(secrets[1..]);
      assert Reversed(secrets) == rest + [secrets[0]];
      assert (rest + [secrets[0]])[..|rest|] == rest;
      PeelReversedPayload(data, secrets[1..], encrypt, decrypt);
    }
  }

  lemma {:induction false} PeelReversedHeader(data: seq<byte>, secrets: seq<seq<byte>>,
                                              encrypt: Lioness, decrypt: Lioness)
    requires forall x, k :: decrypt(encrypt(x, k), k) == x
    ensures PeelHeader(HeaderLayers(data, Reversed(secrets), encrypt), secrets, decrypt) == data
  {
    if secrets != [] {
      var rest := Reversed(secrets[1..]);
      assert Reversed(secrets) == rest + [secrets[0]];
      assert (rest + [secrets[0]])[..|rest|] == rest;
      PeelReversedHeader(data, secrets[1..], encrypt, decrypt);
    }
  }

  /** The hops of the first leg, each removing its layer in path order,
      are left with the bound header 2 and payload. */
  lemma FirstLegPeels(secrets1: seq<seq<byte>>, secrets2: seq<seq<byte>>, header1: seq<byte>,
                      header2: seq<byte>, payload: seq<byte>, encrypt: Lioness, decrypt: Lioness)
    requires forall x, k :: decrypt(encrypt(x, k), k) == x
    ensures var p := PayloadLayers(payload, Reversed(secrets2), encrypt);
            var h := encrypt(header2, KeyFromPayload(p));
            PeelHeader(HeaderLayers(h, Reversed(secrets1), encrypt), secrets1, decrypt) == h &&
            PeelPayload(PayloadLayers(encrypt(p, KeyFromHeader(h)), Reversed(secrets1), encrypt), secrets1, decrypt) ==
              encrypt(p, KeyFromHeader(h))
  {
    var p := PayloadLayers(payload, Reversed(secrets2), encrypt);
    var h := encrypt(header2, KeyFromPayload(p));
    PeelReversedHeader(h, secrets1, encrypt, decrypt);
    PeelReversedPayload(encrypt(p, KeyFromHeader(h)), secrets1, encrypt, decrypt);
  }

  /** _buildReplyBlockImpl: of the len(path)+1 secrets drawn, the first
      len(path) in reverse order are the header secrets and the last is the
      shared end-to-end key. */
  function ReplySecrets(secrets: seq<seq<byte>>): (r: (seq<seq<byte>>, seq<byte>))
    requires |secrets| >= 1
    ensures |r.0| == |secrets| - 1
    ensures forall i :: 0 <= i < |r.0| ==> r.0[i] == secrets[|secrets| - 2 - i]
    ensures r.1 == secrets[|secrets| - 1]
  {
    var header := Reversed(secrets[..|secrets| - 1]);
    forall i | 0 <= i < |header|
      ensures header[i] == secrets[|secrets| - 2 - i]
    {
      ReversedAt(secrets[..|secrets| - 1], i);
    }
    (header, secrets[|secrets| - 1])
  }

  /** A reply travels as follows: the sender 'decrypts' the payload with
      the shared key, then each hop of the reply block decrypts it with its
      header secret.  The recipient 'encrypts' with the secrets in the order
      they were drawn and gets the payload back: the drawing order is the
      decoding order. */
  lemma {:induction false} ReplySecretsDecodeInDrawOrder(secrets: seq<seq<byte>>, payload: seq<byte>,
                                                         encrypt: Lioness, decrypt: Lioness)
    requires |secrets| >= 1
    requires forall x, k :: encrypt(decrypt(x, k), k) == x
    ensures var (headerSecrets, shared) := ReplySecrets(secrets);
            var sent := decrypt(payload, PayloadKey(shared));
            PayloadLayers(PeelPayload(sent, headerSecrets, decrypt), secrets, encrypt) == payload
  {
    var n := |secrets| - 1;
    var (headerSecrets, shared) := ReplySecrets(secrets);
    var sent := decrypt(payload, PayloadKey(shared));
    assert headerSecrets == Reversed(secrets[..n]);
    ReverseLayers(sent, secrets[..n], encrypt, decrypt);
    assert secrets == secrets[..n] + [secrets[n]];
    assert secrets[..n] == secrets[..|secrets| - 1];
  }

  /** Peeling with the reversed list and putting the layers back in list
      order undo each other. */
  lemma {:induction false} ReverseLayers(data: seq<byte>, secrets: seq<seq<byte>>, encrypt: Lioness, decrypt: Lioness)
    requires forall x, k :: encrypt(decrypt(x, k), k) == x
    ensures PayloadLayers(PeelPayload(data, Reversed(secrets), decrypt), secrets, encrypt) == data
    decreases secrets
  {
    if secrets != [] {
      var last := secrets[|secrets| - 1];
      var init := secrets[..|secrets| - 1];
      assert secrets == init + [last];
      ReversedAppend(init, last);
      assert Reversed(secrets) == [last] + Reversed(init);
      ReverseLayers(decrypt(data, PayloadKey(last)), init, encrypt, decrypt);
    }
  }

  /** _decodeReplyPayload(payload, secrets, check): undo the reply hops'
      layers by encrypting with each secret's payload key in list order;
      with 'check' the first intermediate result whose checksum is valid is
      parsed, otherwise only the final one is checked. */
  function ReplyDecoding<P>(payload: seq<byte>, secrets: seq<seq<byte>>, check: bool, encrypt: Lioness,
                            sha1: seq<byte> -> Digest, parse: seq<byte> -> Result<P>): Result<P>
    requires |payload| >= 1
    requires forall x, k :: |encrypt(x, k)| == |x|
    decreases secrets
  {
    if secrets == [] then
      if check || !CheckPayload(payload, sha1) then MixError("Invalid checksum on reply payload")
      else parse(payload)
    else
      var p := encrypt(payload, PayloadKey(secrets[0]));
      if check && CheckPayload(p, sha1) then parse(p)
      else ReplyDecoding(p, secrets[1..], check, encrypt, sha1, parse)
  }

  /** The loop of _decodeReplyPayload. */
  method DecodeReplyPayload<P>(payload: seq<byte>, secrets: seq<seq<byte>>, check: bool, encrypt: Lioness,
                               sha1: seq<byte> -> Digest, parse: seq<byte> -> Result<P>)
    returns (r: Result<P>)
    requires |payload| >= 1
    requires forall x, k :: |encrypt(x, k)| == |x|
    ensures r == ReplyDecoding(payload, secrets, check, encrypt, sha1, parse)
  {
    var p := payload;
    for i := 0 to |secrets|
      invariant |p| == |payload|
      invariant ReplyDecoding(p, secrets[i..], check, encrypt, sha1, parse) ==
                ReplyDecoding(payload, secrets, check, encrypt, sha1, parse)
    {
      assert secrets[i..][1..] == secrets[i + 1..];
      p := encrypt(p, PayloadKey(secrets[i]));
      if check && CheckPayload(p, sha1) {
        return parse(p);
      }
    }
    if check || !CheckPayload(p, sha1) {
      return MixError("Invalid checksum on reply payload");
    }
    return parse(p);
  }

  /** Putting one more layer on first is the same as starting from the
      once-encrypted data. */
  lemma {:induction false} PayloadLayersCons(data: seq<byte>, first: seq<byte>, rest: seq<seq<byte>>,
                                             encrypt: Lioness)
    ensures PayloadLayers(data, [first] + rest, encrypt) ==
            PayloadLayers(encrypt(data, PayloadKey(first)), rest, encrypt)
  {
    if rest != [] {
      var init := rest[..|rest| - 1];
      assert ([first] + rest)[..|rest|] == [first] + init;
      PayloadLayersCons(data, first, init, encrypt);
    }
  }

  /** Without 'check', decoding parses exactly the payload with every
      layer put back, and only when its checksum is valid. */
  lemma {:induction false} UncheckedReplyDecoding<P>(payload: seq<byte>, secrets: seq<seq<byte>>, encrypt: Lioness,
                                                     sha1: seq<byte> -> Digest, parse: seq<byte> -> Result<P>)
    requires |payload| >= 1
    requires forall x, k :: |encrypt(x, k)| == |x|
    ensures |PayloadLayers(payload, secrets, encrypt)| == |payload|
    ensures ReplyDecoding(payload, secrets, false, encrypt, sha1, parse) ==
            if CheckPayload(PayloadLayers(payload, secrets, encrypt), sha1) then parse(PayloadLayers(payload, secrets, encrypt))
            else MixError("Invalid checksum on reply payload")
    decreases secrets
  {
    PayloadLayersLength(payload, secrets, encrypt);
    if secrets != [] {
      var p := encrypt(payload, PayloadKey(secrets[0]));
      UncheckedReplyDecoding(p, secrets[1..], encrypt, sha1, parse);
      assert secrets == [secrets[0]] + secrets[1..];
      PayloadLayersCons(payload, secrets[0], secrets[1..], encrypt);
    }
  }

  /** With 'check', a reply whose intermediate results all fail the
      checksum is refused. */
  lemma {:induction false} CheckedReplyNeedsChecksum<P>(payload: seq<byte>, secrets: seq<seq<byte>>, encrypt: Lioness,
                                                        sha1: seq<byte> -> Digest, parse: seq<byte> -> Result<P>)
    requires |payload| >= 1
    requires forall x, k :: |encrypt(x, k)| == |x|
    requires forall k :: 1 <= k <= |secrets| ==>
               |PayloadLayers(payload, secrets[..k], encrypt)| >= 1 &&
               !CheckPayload(PayloadLayers(payload, secrets[..k], encrypt), sha1)
    ensures ReplyDecoding(payload, secrets, true, encrypt, sha1, parse).MixError?
    decreases secrets
  {
    if secrets != [] {
      var p := encrypt(payload, PayloadKey(secrets[0]));
      assert secrets[..1] == [secrets[0]];
      assert PayloadLayers(payload, secrets[..1], encrypt) == p;
      forall k | 1 <= k <= |secrets[1..]|
        ensures |PayloadLayers(p, secrets[1..][..k], encrypt)| >= 1 &&
                !CheckPayload(PayloadLayers(p, secrets[1..][..k], encrypt), sha1)
      {
        assert secrets[..k + 1] == [secrets[0]] + secrets[1..][..k];
        PayloadLayersCons(payload, secrets[0], secrets[1..][..k], encrypt);
      }
      CheckedReplyNeedsChecksum(p, secrets[1..], encrypt, sha1, parse);
    }
  }

  /** A reply whose payload carried a valid checksum is decoded, without
      'check', from the secrets in drawing order. */
  lemma ReplyRoundTrip<P>(secrets: seq<seq<byte>>, payload: seq<byte>, encrypt: Lioness, decrypt: Lioness,
                          sha1: seq<byte> -> Digest, parse: seq<byte> -> Result<P>)
    requires |secrets| >= 1 && |payload| == PAYLOAD_LEN
    requires forall x, k :: encrypt(decrypt(x, k), k) == x
    requires forall x, k :: |encrypt(x, k)| == |x| && |decrypt(x, k)| == |x|
    requires CheckPayload(payload, sha1)
    ensures var (headerSecrets, shared) := ReplySecrets(secrets);
            var arrived := PeelPayload(decrypt(payload, PayloadKey(shared)), headerSecrets, decrypt);
            |arrived| >= 1 && ReplyDecoding(arrived, secrets, false, encrypt, sha1, parse) == parse(payload)
  {
    var (headerSecrets, shared) := ReplySecrets(secrets);
    var arrived := PeelPayload(decrypt(payload, PayloadKey(shared)), headerSecrets, decrypt);
    ReplySecretsDecodeInDrawOrder(secrets, payload, encrypt, decrypt);
    PeelPayloadLength(decrypt(payload, PayloadKey(shared)), headerSecrets, decrypt);
    UncheckedReplyDecoding(arrived, secrets, encrypt, sha1, parse);
  }

  lemma {:induction false} PeelPayloadLength(data: seq<byte>, secrets: seq<seq<byte>>, decrypt: Lioness)
    requires forall x, k :: |decrypt(x, k)| == |x|
    ensures |PeelPayload(data, secrets, decrypt)| == |data|
    decreases secrets
  {
    if secrets != [] {
      PeelPayloadLength(decrypt(data, PayloadKey(secrets[0])), secrets[1..], decrypt);
    }
  }

  /** A copy of the caller's list (list[:]). */
  method CopyOf(a: array<seq<byte>>) returns (b: array<seq<byte>>)
    ensures fresh(b) && b[..] == a[..]
  {
    b := new seq<byte>[a.Length];
    for i := 0 to a.Length
      invariant b[..i] == a[..i]
    {
      b[i] := a[i];
    }
    assert b[..] == b[..a.Length];
  }

  /** list.reverse(), in place. */
  method ReverseInPlace(a: array<seq<byte>>)
    modifies a
    ensures a[..] == Reversed(old(a[..]))
  {
    var i, j := 0, a.Length - 1;
    while i < j
      invariant 0 <= i <= a.Length && j == a.Length - 1 - i
      invariant forall k :: 0 <= k < i ==> a[k] == old(a[a.Length - 1 - k]) && a[a.Length - 1 - k] == old(a[k])
      invariant forall k :: i <= k < a.Length - i ==> a[k] == old(a[k])
    {
      a[i], a[j] := a[j], a[i];
      i, j := i + 1, j - 1;
    }
    forall k | 0 <= k < a.Length
      ensures a[k] == Reversed(old(a[..]))[k]
    {
      ReversedAt(old(a[..]), k);
    }
  }

  /** _constructMessage(secrets1, secrets2, header1, header2, payload):
      the secret lists are copied before being reversed, so the caller's
      lists are left as they were; secrets2 is None (or empty) for a reply
      block. */
  method ConstructMessage(secrets1: array<seq<byte>>, secrets2: Option<array<seq<byte>>>,
                          header1: seq<byte>, header2: seq<byte>, payload: seq<byte>, encrypt: Lioness)
    returns (packet: seq<byte>)
    requires |payload| == PAYLOAD_LEN && |header1| == HEADER_LEN && |header2| == HEADER_LEN
    ensures packet == Constructed(secrets1[..], if secrets2.Some? then secrets2.value[..] else [],
                                  header1, header2, payload, encrypt)
    ensures secrets1[..] == old(secrets1[..])
    ensures secrets2.Some? ==> secrets2.value[..] == old(secrets2.value[..])
  {
    var p := payload;
    if secrets2.Some? && secrets2.value.Length > 0 {
      var s2 := CopyOf(secrets2.value);
      ReverseInPlace(s2);
      for i := 0 to s2.Length
        invariant p == PayloadLayers(payload, s2[..i], encrypt)
      {
        assert s2[..i + 1][..i] == s2[..i];
        p := encrypt(p, PayloadKey(s2[i]));
      }
      assert s2[..s2.Length] == s2[..];
    } else if secrets2.Some? {
      assert secrets2.value[..] == [];
    }
    var h2 := encrypt(header2, KeyFromPayload(p));
    p := encrypt(p, KeyFromHeader(h2));
    ghost var h0, p0 := h2, p;
    var s1 := CopyOf(secrets1);
    ReverseInPlace(s1);
    for i := 0 to s1.Length
      invariant h2 == HeaderLayers(h0, s1[..i], encrypt)
      invariant p == PayloadLayers(p0, s1[..i], encrypt)
    {
      assert s1[..i + 1][..i] == s1[..i];
      h2 := encrypt(h2, HeaderKey(s1[i]));
      p := encrypt(p, PayloadKey(s1[i]));
    }
    assert s1[..s1.Length] == s1[..];
    packet := header1 + h2 + p;
  }

  /** With length-preserving Lioness, a constructed packet is two headers
      and a payload long. */
  lemma ConstructedLength(secrets1: seq<seq<byte>>, secrets2: seq<seq<byte>>, header1: seq<byte>,
                          header2: seq<byte>, payload: seq<byte>, encrypt: Lioness)
    requires forall x, k :: |encrypt(x, k)| == |x|
    requires |payload| == PAYLOAD_LEN && |header1| == HEADER_LEN && |header2| == HEADER_LEN
    ensures |Constructed(secrets1, secrets2, header1, header2, payload, encrypt)| == 2 * HEADER_LEN + PAYLOAD_LEN
  {
    var p := PayloadLayers(payload, Reversed(secrets2), encrypt);
    PayloadLayersLength(payload, Reversed(secrets2), encrypt);
    var h := encrypt(header2, KeyFromPayload(p));
    var q := encrypt(p, KeyFromHeader(h));
    HeaderLayersLength(h, Reversed(secrets1), encrypt);
    PayloadLayersLength(q, Reversed(secrets1), encrypt);
  }

  lemma {:induction false} PayloadLayersLength(data: seq<byte>, secrets: seq<seq<byte>>, encrypt: Lioness)
    requires forall x, k :: |encrypt(x, k)| == |x|
    ensures |PayloadLayers(data, secrets, encrypt)| == |data|
  {
    if secrets != [] {
      PayloadLayersLength(data, secrets[..|secrets| - 1], encrypt);
    }
  }

  lemma {:induction false} HeaderLayersLength(data: seq<byte>, secrets: seq<seq<byte>>, encrypt: Lioness)
    requires forall x, k :: |encrypt(x, k)| == |x|
    ensures |HeaderLayers(data, secrets, encrypt)| == |data|
  {
    if secrets != [] {
      HeaderLayersLength(data, secrets[..|secrets| - 1], encrypt);
    }
  }
}
