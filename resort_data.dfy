/**
 * The value side of the resort exercise (Resort.c): guests, rooms and a
 * resort as records, the VIP and "luxury room" counts, the validation done
 * by createGuest and createRoom, and the reader of the resort text format,
 * whose `fscanf` input is a sequence of whitespace-separated tokens.
 */
module ResortData {
  import opened Wrappers
  import opened CStrings

  /** LUXURY_THRESHOLD: a room is a luxury room when it has at least this many VIP guests. */
  const LuxuryThreshold: nat := 3

  datatype GuestInfo = GuestInfo(firstName: string, lastName: string, vip: bool)
  datatype RoomInfo = RoomInfo(number: int, floor: int, guests: seq<GuestInfo>)
  datatype ResortInfo = ResortInfo(name: string, rooms: seq<RoomInfo>)

  /** The number of VIP guests, counted from the first guest on as getVipGuestsCount does. */
  function VipCount(guests: seq<GuestInfo>): (n: nat)
    ensures n <= |guests|
  {
    if guests == [] then 0
    else VipCount(guests[..|guests| - 1]) + (if guests[|guests| - 1].vip then 1 else 0)
  }

  lemma VipCountStep(guests: seq<GuestInfo>, g: GuestInfo)
    ensures VipCount(guests + [g]) == VipCount(guests) + (if g.vip then 1 else 0)
  {
    assert (guests + [g])[..|guests|] == guests;
  }

  predicate IsLuxury(room: RoomInfo)
  {
    VipCount(room.guests) >= LuxuryThreshold
  }

  /** The number of luxury rooms, counted from the first room on as getLuxuryRoomsCount does. */
  function LuxuryCount(rooms: seq<RoomInfo>): (n: nat)
    ensures n <= |rooms|
  {
    if rooms == [] then 0
    else LuxuryCount(rooms[..|rooms| - 1]) + (if IsLuxury(rooms[|rooms| - 1]) then 1 else 0)
  }

  lemma LuxuryCountStep(rooms: seq<RoomInfo>, room: RoomInfo)
    ensures LuxuryCount(rooms + [room]) == LuxuryCount(rooms) + (if IsLuxury(room) then 1 else 0)
  {
    assert (rooms + [room])[..|rooms|] == rooms;
  }

  /** No guest is a VIP exactly when the count is zero. */
  lemma {:induction false} NoVipIffZero(guests: seq<GuestInfo>)
    ensures VipCount(guests) == 0 <==> forall i :: 0 <= i < |guests| ==> !guests[i].vip
  {
    if guests != [] {
      var init := guests[..|guests| - 1];
      NoVipIffZero(init);
      assert forall i :: 0 <= i < |init| ==> init[i] == guests[i];
    }
  }

  /** Every guest is a VIP exactly when the count is the number of guests. */
  lemma {:induction false} AllVipIffFull(guests: seq<GuestInfo>)
    ensures VipCount(guests) == |guests| <==> forall i :: 0 <= i < |guests| ==> guests[i].vip
  {
    if guests != [] {
      var init := guests[..|guests| - 1];
      AllVipIffFull(init);
      assert forall i :: 0 <= i < |init| ==> init[i] == guests[i];
    }
  }

  /** No room is a luxury room exactly when the luxury count is zero. */
  lemma {:induction false} NoLuxuryIffZero(rooms: seq<RoomInfo>)
    ensures LuxuryCount(rooms) == 0 <==> forall k :: 0 <= k < |rooms| ==> !IsLuxury(rooms[k])
  {
    if rooms != [] {
      var init := rooms[..|rooms| - 1];
      NoLuxuryIffZero(init);
      assert forall k :: 0 <= k < |init| ==> init[k] == rooms[k];
    }
  }

  /** The guest makeVip leaves behind: the same names, VIP. */
  function Promoted(g: GuestInfo): (p: GuestInfo)
    ensures p.vip && p.firstName == g.firstName && p.lastName == g.lastName
  {
    g.(vip := true)
  }

  /** Making guest i a VIP adds one to the count if it was not one already, and nothing otherwise. */
  lemma {:induction false} PromoteCounts(guests: seq<GuestInfo>, i: nat)
    requires i < |guests|
    ensures VipCount(guests[i := Promoted(guests[i])]) == VipCount(guests) + (if guests[i].vip then 0 else 1)
    decreases |guests|
  {
    var after := guests[i := Promoted(guests[i])];
    var n := |guests| - 1;
    if i < n {
      PromoteCounts(guests[..n], i);
      assert after[..n] == guests[..n][i := Promoted(guests[i])];
    } else {
      assert after[..n] == guests[..n];
    }
  }

  /** The guests after makeVip on each of the first n of them (on all of them when there are fewer). */
  function PromoteFirst(guests: seq<GuestInfo>, n: nat): (p: seq<GuestInfo>)
    ensures |p| == |guests|
  {
    seq(|guests|, j requires 0 <= j < |guests| => if j < n then Promoted(guests[j]) else guests[j])
  }

  /** One more makeVip call of the promotion loop: guest n joins the promoted prefix. */
  lemma PromoteNext(guests: seq<GuestInfo>, n: nat)
    requires n < |guests|
    ensures PromoteFirst(guests, n)[n := Promoted(PromoteFirst(guests, n)[n])] == PromoteFirst(guests, n + 1)
  {
  }

  /** Promoting the first n guests of a room without VIPs makes exactly min(n, |guests|) of them VIP. */
  lemma {:induction false} PromoteFirstCount(guests: seq<GuestInfo>, n: nat)
    requires VipCount(guests) == 0
    ensures VipCount(PromoteFirst(guests, n)) == if n < |guests| then n else |guests|
  {
    if n == 0 {
      assert PromoteFirst(guests, 0) == guests;
    } else if n - 1 < |guests| {
      PromoteFirstCount(guests, n - 1);
      NoVipIffZero(guests);
      PromoteNext(guests, n - 1);
      PromoteCounts(PromoteFirst(guests, n - 1), n - 1);
    } else {
      PromoteFirstCount(guests, n - 1);
      assert PromoteFirst(guests, n) == PromoteFirst(guests, n - 1);
    }
  }

  /**
   * Step 3 of the main program on records: when there are at least two
   * rooms, the first three guests of the second room become VIP.
   */
  function MainPromotion(rooms: seq<RoomInfo>): (promoted: seq<RoomInfo>)
    ensures |promoted| == |rooms|
  {
    if |rooms| >= 2 then rooms[1 := rooms[1].(guests := PromoteFirst(rooms[1].guests, 3))] else rooms
  }

  /** Replacing room k changes the luxury count by the difference of the two rooms' contributions only. */
  lemma {:induction false} LuxuryCountUpdate(rooms: seq<RoomInfo>, k: nat, room: RoomInfo)
    requires k < |rooms|
    ensures LuxuryCount(rooms[k := room]) + (if IsLuxury(rooms[k]) then 1 else 0)
         == LuxuryCount(rooms) + (if IsLuxury(room) then 1 else 0)
    decreases |rooms|
  {
    var after := rooms[k := room];
    var n := |rooms| - 1;
    if k < n {
      LuxuryCountUpdate(rooms[..n], k, room);
      assert after[..n] == rooms[..n][k := room];
    } else {
      assert after[..n] == rooms[..n];
    }
  }

  /**
   * On rooms without VIPs, the main program's promotion leaves one luxury
   * room when the second room has at least LuxuryThreshold guests, and none otherwise.
   */
  lemma MainPromotionLuxury(rooms: seq<RoomInfo>)
    requires forall k :: 0 <= k < |rooms| ==> VipCount(rooms[k].guests) == 0
    ensures LuxuryCount(MainPromotion(rooms)) == if |rooms| >= 2 && |rooms[1].guests| >= LuxuryThreshold then 1 else 0
  {
    NoLuxuryIffZero(rooms);
    if |rooms| >= 2 {
      PromoteFirstCount(rooms[1].guests, 3);
      LuxuryCountUpdate(rooms, 1, rooms[1].(guests := PromoteFirst(rooms[1].guests, 3)));
    }
  }

  /**
   * createGuest on values: no guest when a name is NULL or empty; otherwise
   * copies of both names (safe_strdup) and not VIP.
   */
  function NewGuest(first: Option<string>, last: Option<string>): (g: Option<GuestInfo>)
    ensures g.None? <==> first.None? || last.None? || Strlen(first.value) == 0 || Strlen(last.value) == 0
    ensures g.Some? ==> Some(g.value.firstName) == Strdup(first) && Some(g.value.lastName) == Strdup(last)
    ensures g.Some? ==> !g.value.vip && g.value.firstName != [] && g.value.lastName != []
  {
    if first.None? || last.None? || Strlen(first.value) == 0 || Strlen(last.value) == 0 then None
    else Some(GuestInfo(CString(first.value), CString(last.value), false))
  }

  /** The checks createRoom makes before copying anything. */
  predicate RoomAccepted(number: int, floor: int, guestsCount: int)
  {
    number > 0 && floor >= 0 && guestsCount > 0
  }

  /** A guest as createRoom copies it: both names through safe_strdup, the VIP flag as is. */
  function Copied(g: GuestInfo): GuestInfo
  {
    GuestInfo(CString(g.firstName), CString(g.lastName), g.vip)
  }

  function CopiedAll(guests: seq<GuestInfo>): (copies: seq<GuestInfo>)
    ensures |copies| == |guests|
    ensures forall i :: 0 <= i < |guests| ==> copies[i] == Copied(guests[i])
  {
    if guests == [] then [] else CopiedAll(guests[..|guests| - 1]) + [Copied(guests[|guests| - 1])]
  }

  /** A deep copy keeps every VIP flag, so the VIP count. */
  lemma {:induction false} CopyKeepsVipCount(guests: seq<GuestInfo>)
    ensures VipCount(CopiedAll(guests)) == VipCount(guests)
  {
    if guests != [] {
      var n := |guests| - 1;
      CopyKeepsVipCount(guests[..n]);
      assert CopiedAll(guests)[..n] == CopiedAll(guests[..n]);
    }
  }

  /** Guests made by createGuest hold C strings, so copying them changes nothing. */
  lemma CopyOfCreatedGuest(g: GuestInfo, first: Option<string>, last: Option<string>)
    requires NewGuest(first, last) == Some(g)
    ensures Copied(g) == g
  {
    CStringOfNulFree(g.firstName);
    CStringOfNulFree(g.lastName);
  }

  /** %d on one token: an optional sign followed by decimal digits, and nothing else. */
  function ParseInt(token: string): (r: Option<int>)
    ensures r.Some? ==> token != []
  {
    if token != [] && (token[0] == '-' || token[0] == '+') && IsDigits(token[1..]) then
      var magnitude: int := DigitsValue(token[1..]);
      Some(if token[0] == '-' then -magnitude else magnitude)
    else if IsDigits(token) then Some(DigitsValue(token))
    else None
  }

  /** A non-empty run of decimal digits. */
  predicate IsDigits(s: string)
  {
    s != [] && AllDigits(s)
  }

  /** Every character of s is a decimal digit. */
  predicate AllDigits(s: string)
  {
    s == [] || (AllDigits(s[..|s| - 1]) && '0' <= s[|s| - 1] <= '9')
  }

  /** Every position of a digit string holds a digit. */
  lemma {:induction false} DigitAt(s: string, i: nat)
    requires AllDigits(s) && i < |s|
    ensures '0' <= s[i] <= '9'
  {
    if i < |s| - 1 {
      DigitAt(s[..|s| - 1], i);
    }
  }

  /** The value of a string of decimal digits, most significant first. */
  function DigitsValue(s: string): (n: nat)
    requires AllDigits(s)
  {
    if s == [] then 0 else 10 * DigitsValue(s[..|s| - 1]) + (s[|s| - 1] as int - '0' as int)
  }

  /** The decimal digits of a natural number. */
  function Decimal(n: nat): (s: string)
    ensures IsDigits(s)
  {
    if n < 10 then [('0' as int + n) as char] else Decimal(n / 10) + [('0' as int + n % 10) as char]
  }

  /** %d reads back what printing a number in decimal writes. */
  lemma {:induction false} DecimalRoundTrip(n: nat)
    ensures DigitsValue(Decimal(n)) == n
    ensures ParseInt(Decimal(n)) == Some(n)
  {
    var s := Decimal(n);
    if n >= 10 {
      DecimalRoundTrip(n / 10);
      assert s[..|s| - 1] == Decimal(n / 10);
    }
    DigitAt(s, 0);
  }

  /** One guest line: two name tokens, then createGuest. */
  function ParseGuest(tokens: seq<string>, pos: nat): (r: Option<(GuestInfo, nat)>)
    ensures r.Some? ==> r.value.1 == pos + 2 <= |tokens|
  {
    if pos + 2 <= |tokens| then
      match NewGuest(Some(tokens[pos]), Some(tokens[pos + 1]))
      case None => None
      case Some(g) => Some((g, pos + 2))
    else None
  }

  /** The first k guest lines from `pos` on, or None as soon as one fails. */
  function ParseGuests(tokens: seq<string>, pos: nat, k: nat): (r: Option<(seq<GuestInfo>, nat)>)
    ensures r.Some? ==> |r.value.0| == k && r.value.1 == pos + 2 * k <= |tokens|
  {
    if k == 0 then (if pos <= |tokens| then Some(([], pos)) else None)
    else
      match ParseGuests(tokens, pos, k - 1)
      case None => None
      case Some((guests, p)) =>
        match ParseGuest(tokens, p)
        case None => None
        case Some((g, q)) => Some((guests + [g], q))
  }

  /** Once a guest line fails, reading more guest lines fails too. */
  lemma {:induction false} GuestsFailureStays(tokens: seq<string>, pos: nat, k: nat, m: nat)
    requires k <= m && ParseGuests(tokens, pos, k).None?
    ensures ParseGuests(tokens, pos, m).None?
    decreases m
  {
    if k < m {
      GuestsFailureStays(tokens, pos, k, m - 1);
    }
  }

  /** Reading one more guest line after k of them. */
  lemma GuestsStep(tokens: seq<string>, pos: nat, k: nat, guests: seq<GuestInfo>, p: nat)
    requires ParseGuests(tokens, pos, k) == Some((guests, p))
    ensures ParseGuests(tokens, pos, k + 1) ==
      if ParseGuest(tokens, p).Some? then Some((guests + [ParseGuest(tokens, p).value.0], p + 2)) else None
  {
  }

  /** A room line: number > 0, floor >= 0 and a guest count >= 0, as three integer tokens. */
  function ParseRoomHeader(tokens: seq<string>, pos: nat): (r: Option<(int, int, nat)>)
    ensures r.Some? ==> pos + 3 <= |tokens| && r.value.0 > 0 && r.value.1 >= 0
  {
    if pos + 3 <= |tokens| then
      var number, floor, count := ParseInt(tokens[pos]), ParseInt(tokens[pos + 1]), ParseInt(tokens[pos + 2]);
      if number.Some? && floor.Some? && count.Some? && number.value > 0 && floor.value >= 0 && count.value >= 0
      then Some((number.value, floor.value, count.value as nat))
      else None
    else None
  }

  /** A room: its line, then as many guest lines as it announces. */
  function ParseRoom(tokens: seq<string>, pos: nat): (r: Option<(RoomInfo, nat)>)
    ensures r.Some? ==> pos + 3 <= r.value.1 <= |tokens|
  {
    match ParseRoomHeader(tokens, pos)
    case None => None
    case Some((number, floor, count)) =>
      match ParseGuests(tokens, pos + 3, count)
      case None => None
      case Some((guests, q)) => Some((RoomInfo(number, floor, guests), q))
  }

  /** The first k rooms from `pos` on, or None as soon as one fails. */
  function ParseRooms(tokens: seq<string>, pos: nat, k: nat): (r: Option<(seq<RoomInfo>, nat)>)
    ensures r.Some? ==> |r.value.0| == k && pos <= r.value.1 <= |tokens|
  {
    if k == 0 then (if pos <= |tokens| then Some(([], pos)) else None)
    else
      match ParseRooms(tokens, pos, k - 1)
      case None => None
      case Some((rooms, p)) =>
        match ParseRoom(tokens, p)
        case None => None
        case Some((room, q)) => Some((rooms + [room], q))
  }

  /** Reading one more room after k of them. */
  lemma RoomsStep(tokens: seq<string>, pos: nat, k: nat, rooms: seq<RoomInfo>, p: nat)
    requires ParseRooms(tokens, pos, k) == Some((rooms, p))
    ensures ParseRooms(tokens, pos, k + 1) ==
      if ParseRoom(tokens, p).Some?
      then Some((rooms + [ParseRoom(tokens, p).value.0], ParseRoom(tokens, p).value.1))
      else None
  {
  }

  /** Once a room fails, reading more rooms fails too. */
  lemma {:induction false} RoomsFailureStays(tokens: seq<string>, pos: nat, k: nat, m: nat)
    requires k <= m && ParseRooms(tokens, pos, k).None?
    ensures ParseRooms(tokens, pos, m).None?
    decreases m
  {
    if k < m {
      RoomsFailureStays(tokens, pos, k, m - 1);
    }
  }

  /** The header line: a name token and a room count, which must be positive. */
  function ParseHeader(tokens: seq<string>): (r: Option<(string, nat)>)
    ensures r.Some? <==> |tokens| >= 2 && ParseInt(tokens[1]).Some? && ParseInt(tokens[1]).value > 0
    ensures r.Some? ==> r.value.1 > 0 && r.value.1 == ParseInt(tokens[1]).value
  {
    if |tokens| >= 2 then
      match ParseInt(tokens[1])
      case Some(total) => if total > 0 then Some((tokens[0], total as nat)) else None
      case None => None
    else None
  }

  /**
   * createResortFromFile on values: the header, then the announced number
   * of rooms; None when any line is missing or fails its checks. Tokens
   * after the last guest are not read.
   */
  function ParseResort(tokens: seq<string>): Option<ResortInfo>
  {
    match ParseHeader(tokens)
    case None => None
    case Some((name, total)) =>
      match ParseRooms(tokens, 2, total)
      case None => None
      case Some((rooms, _)) => Some(ResortInfo(CString(name), rooms))
  }

  /** The guests read from a file are named and not VIP. */
  lemma {:induction false} ParsedGuestsAreNew(tokens: seq<string>, pos: nat, k: nat)
    requires ParseGuests(tokens, pos, k).Some?
    ensures forall i :: 0 <= i < k ==> var g := ParseGuests(tokens, pos, k).value.0[i];
      !g.vip && g.firstName != [] && g.lastName != []
  {
    if k > 0 {
      ParsedGuestsAreNew(tokens, pos, k - 1);
    }
  }

  /** A room read from a file passes the room line checks and has no VIP guest. */
  lemma ParsedRoomIsNew(tokens: seq<string>, pos: nat)
    requires ParseRoom(tokens, pos).Some?
    ensures var room := ParseRoom(tokens, pos).value.0;
      room.number > 0 && room.floor >= 0 && VipCount(room.guests) == 0
  {
    var (number, floor, count) := ParseRoomHeader(tokens, pos).value;
    ParsedGuestsAreNew(tokens, pos + 3, count);
    NoVipIffZero(ParseGuests(tokens, pos + 3, count).value.0);
  }

  /** The rooms read from a file pass the room line checks and have no VIP guest. */
  lemma {:induction false} ParsedRoomsAreNew(tokens: seq<string>, pos: nat, k: nat)
    requires ParseRooms(tokens, pos, k).Some?
    ensures forall j :: 0 <= j < k ==> var room := ParseRooms(tokens, pos, k).value.0[j];
      room.number > 0 && room.floor >= 0 && VipCount(room.guests) == 0
  {
    if k > 0 {
      var p := ParseRooms(tokens, pos, k - 1).value.1;
      ParsedRoomsAreNew(tokens, pos, k - 1);
      ParsedRoomIsNew(tokens, p);
    }
  }

  /**
   * A resort read from a file has as many rooms as its header announces,
   * every room passes its checks, and no room is a luxury room yet.
   */
  lemma ParsedResortHasNoLuxury(tokens: seq<string>)
    requires ParseResort(tokens).Some?
    ensures var resort := ParseResort(tokens).value;
      && |tokens| >= 2 && ParseInt(tokens[1]) == Some(|resort.rooms|) && |resort.rooms| > 0
      && (forall j :: 0 <= j < |resort.rooms| ==> resort.rooms[j].number > 0 && resort.rooms[j].floor >= 0)
      && LuxuryCount(resort.rooms) == 0
  {
    var (name, total) := ParseHeader(tokens).value;
    var rooms := ParseRooms(tokens, 2, total).value.0;
    ParsedRoomsAreNew(tokens, 2, total);
    NoLuxuryIffZero(rooms);
  }

  /**
   * The reader accepts a room line announcing no guests, which createRoom
   * would refuse: the two validations disagree.
   */
  lemma EmptyRoomAccepted()
    ensures ParseResort(["Bay", "1", "7", "0", "0"]) == Some(ResortInfo("Bay", [RoomInfo(7, 0, [])]))
    ensures !RoomAccepted(7, 0, 0)
  {
    var tokens := ["Bay", "1", "7", "0", "0"];
    assert DigitsValue("7") == 7 && DigitsValue("1") == 1 && DigitsValue("0") == 0;
    assert ParseHeader(tokens) == Some(("Bay", 1));
    assert ParseRoomHeader(tokens, 2) == Some((7, 0, 0));
    assert ParseRoom(tokens, 2) == Some((RoomInfo(7, 0, []), 5));
    assert ParseRooms(tokens, 2, 0) == Some(([], 2));
    assert ParseRooms(tokens, 2, 1) == Some(([] + [RoomInfo(7, 0, [])], 5));
    CStringOfNulFree("Bay");
    assert [] + [RoomInfo(7, 0, [])] == [RoomInfo(7, 0, [])];
    assert ParseResort(tokens) == Some(ResortInfo(CString("Bay"), [RoomInfo(7, 0, [])]));
  }

  /** A guest line of two non-empty NUL-free names reads as that guest, not VIP. */
  lemma NamedGuest(tokens: seq<string>, pos: nat)
    requires pos + 2 <= |tokens|
    requires tokens[pos] != [] && Nul !in tokens[pos] && tokens[pos + 1] != [] && Nul !in tokens[pos + 1]
    ensures ParseGuest(tokens, pos) == Some((GuestInfo(tokens[pos], tokens[pos + 1], false), pos + 2))
  {
    CStringOfNulFree(tokens[pos]);
    CStringOfNulFree(tokens[pos + 1]);
  }

  /** k guest lines of non-empty NUL-free names read as those guests, none VIP. */
  lemma {:induction false} NamedGuests(tokens: seq<string>, pos: nat, k: nat)
    requires pos + 2 * k <= |tokens|
    requires forall i :: pos <= i < pos + 2 * k ==> tokens[i] != [] && Nul !in tokens[i]
    ensures ParseGuests(tokens, pos, k).Some?
    ensures forall j :: 0 <= j < k ==>
      ParseGuests(tokens, pos, k).value.0[j] == GuestInfo(tokens[pos + 2 * j], tokens[pos + 2 * j + 1], false)
  {
    if k > 0 {
      NamedGuests(tokens, pos, k - 1);
      NamedGuest(tokens, pos + 2 * (k - 1));
    }
  }

  /** Guest lines read the same wherever their tokens sit in the input. */
  lemma {:induction false} GuestsAnywhere(tokens: seq<string>, pos: nat, part: seq<string>, offset: nat, k: nat)
    requires pos + |part| <= |tokens| && tokens[pos..pos + |part|] == part
    requires ParseGuests(part, offset, k).Some?
    ensures ParseGuests(tokens, pos + offset, k)
      == Some((ParseGuests(part, offset, k).value.0, pos + ParseGuests(part, offset, k).value.1))
  {
    if k > 0 {
      GuestsAnywhere(tokens, pos, part, offset, k - 1);
      var p := ParseGuests(part, offset, k - 1).value.1;
      assert tokens[pos + p] == part[p] && tokens[pos + p + 1] == part[p + 1];
    }
  }

  /** A room line reads the same wherever its tokens sit in the input. */
  lemma RoomHeaderAnywhere(tokens: seq<string>, pos: nat, part: seq<string>)
    requires pos + |part| <= |tokens| && tokens[pos..pos + |part|] == part
    requires ParseRoomHeader(part, 0).Some?
    ensures ParseRoomHeader(tokens, pos) == ParseRoomHeader(part, 0)
  {
    assert tokens[pos] == part[0] && tokens[pos + 1] == part[1] && tokens[pos + 2] == part[2];
  }

  /** A room reads the same wherever its tokens sit in the input. */
  lemma RoomAnywhere(tokens: seq<string>, pos: nat, part: seq<string>)
    requires pos + |part| <= |tokens| && tokens[pos..pos + |part|] == part
    requires ParseRoom(part, 0).Some?
    ensures ParseRoom(tokens, pos) == Some((ParseRoom(part, 0).value.0, pos + ParseRoom(part, 0).value.1))
  {
    RoomHeaderAnywhere(tokens, pos, part);
    var (number, floor, count) := ParseRoomHeader(part, 0).value;
    var (guests, q) := ParseGuests(part, 3, count).value;
    GuestsAnywhere(tokens, pos, part, 3, count);
    assert ParseGuests(tokens, pos + 3, count) == Some((guests, pos + q));
  }

  /** A room line followed by one guest line per guest, each of non-empty NUL-free names. */
  lemma NamedRoom(tokens: seq<string>, number: int, floor: int, guests: seq<GuestInfo>)
    requires |tokens| == 3 + 2 * |guests|
    requires ParseRoomHeader(tokens, 0) == Some((number, floor, |guests|))
    requires forall i :: 3 <= i < |tokens| ==> tokens[i] != [] && Nul !in tokens[i]
    requires forall j :: 0 <= j < |guests| ==> guests[j] == GuestInfo(tokens[3 + 2 * j], tokens[4 + 2 * j], false)
    ensures ParseRoom(tokens, 0) == Some((RoomInfo(number, floor, guests), |tokens|))
  {
    NamedGuests(tokens, 3, |guests|);
    assert ParseGuests(tokens, 3, |guests|).value.0 == guests;
  }

  /** The input file written by the exercise's main program: a header line and two rooms. */
  function SampleTokens(): seq<string>
  {
    SampleHeader() + SampleFirstRoomLines() + SampleSecondRoomLines()
  }

  function SampleHeader(): seq<string> { ["ParadiseBay", "2"] }

  function SampleFirstRoomLines(): seq<string>
  {
    ["101", "1", "3", "Mario", "Rossi", "Luigi", "Verdi", "Anna", "Bianchi"]
  }

  function SampleSecondRoomLines(): seq<string>
  {
    ["202", "2", "4", "Giulia", "Neri", "Paolo", "Gialli", "Sara", "Blu", "Luca", "Arancio"]
  }

  function SampleResort(): ResortInfo
  {
    ResortInfo("ParadiseBay", [
      RoomInfo(101, 1, [GuestInfo("Mario", "Rossi", false), GuestInfo("Luigi", "Verdi", false),
                        GuestInfo("Anna", "Bianchi", false)]),
      RoomInfo(202, 2, [GuestInfo("Giulia", "Neri", false), GuestInfo("Paolo", "Gialli", false),
                        GuestInfo("Sara", "Blu", false), GuestInfo("Luca", "Arancio", false)])])
  }

  lemma SampleFirstRoom()
    ensures ParseRoom(SampleFirstRoomLines(), 0) == Some((SampleResort().rooms[0], 9))
  {
    var t, guests := SampleFirstRoomLines(), SampleResort().rooms[0].guests;
    assert DigitsValue("10") == 10 && "101"[..2] == "10";
    assert DigitsValue("101") == 101 && DigitsValue("1") == 1 && DigitsValue("3") == 3;
    NamedRoom(t, 101, 1, guests);
  }

  lemma SampleSecondRoom()
    ensures ParseRoom(SampleSecondRoomLines(), 0) == Some((SampleResort().rooms[1], 11))
  {
    var t, guests := SampleSecondRoomLines(), SampleResort().rooms[1].guests;
    assert DigitsValue("20") == 20 && "202"[..2] == "20";
    assert DigitsValue("202") == 202 && DigitsValue("2") == 2 && DigitsValue("4") == 4;
    NamedRoom(t, 202, 2, guests);
  }

  /** A header announcing two rooms followed by two well-formed rooms reads as those two rooms. */
  lemma TwoRooms(tokens: seq<string>, header: seq<string>, first: seq<string>, second: seq<string>)
    requires tokens == header + first + second && |header| == 2
    requires ParseHeader(header) == Some((header[0], 2))
    requires ParseRoom(first, 0).Some? && ParseRoom(first, 0).value.1 == |first|
    requires ParseRoom(second, 0).Some?
    ensures ParseResort(tokens) == Some(ResortInfo(CString(header[0]),
      [ParseRoom(first, 0).value.0, ParseRoom(second, 0).value.0]))
  {
    assert tokens[0] == header[0] && tokens[1] == header[1];
    var p := 2 + |first|;
    assert tokens[2..p] == first && tokens[p..p + |second|] == second;
    RoomAnywhere(tokens, 2, first);
    RoomAnywhere(tokens, p, second);
    var room1, room2 := ParseRoom(first, 0).value.0, ParseRoom(second, 0).value.0;
    assert ParseRooms(tokens, 2, 0) == Some(([], 2));
    assert ParseRooms(tokens, 2, 1) == Some(([] + [room1], p));
    assert [] + [room1] == [room1];
    assert ParseRooms(tokens, 2, 2) == Some(([room1] + [room2], p + ParseRoom(second, 0).value.1));
    assert [room1] + [room2] == [room1, room2];
  }

  lemma SampleHeaderLine()
    ensures ParseHeader(SampleHeader()) == Some((SampleHeader()[0], 2))
    ensures CString(SampleHeader()[0]) == SampleResort().name
  {
    assert "2"[..0] == [];
    assert IsDigits("2") && DigitsValue("2") == 2;
    assert ParseInt("2") == Some(2);
    CStringOfNulFree("ParadiseBay");
  }

  /** The main program's file reads as two rooms of three and four guests, none of them VIP. */
  lemma SampleFile()
    ensures ParseResort(SampleTokens()) == Some(SampleResort())
  {
    SampleHeaderLine();
    SampleFirstRoom();
    SampleSecondRoom();
    TwoRooms(SampleTokens(), SampleHeader(), SampleFirstRoomLines(), SampleSecondRoomLines());
  }

  /**
   * The main program then makes the first three guests of the second room
   * VIP: that room becomes the one luxury room.
   */
  lemma SamplePromotion()
    ensures var rooms := MainPromotion(SampleResort().rooms);
      && VipCount(rooms[0].guests) == 0 && VipCount(rooms[1].guests) == 3
      && LuxuryCount(rooms) == 1
  {
    var rooms := SampleResort().rooms;
    NoVipIffZero(rooms[0].guests);
    NoVipIffZero(rooms[1].guests);
    PromoteFirstCount(rooms[1].guests, 3);
    MainPromotionLuxury(rooms);
  }

  /** The main program's file reads, and after step 3 exactly one of its rooms is a luxury room. */
  lemma SampleOutcome()
    ensures ParseResort(SampleTokens()).Some?
    ensures LuxuryCount(MainPromotion(ParseResort(SampleTokens()).value.rooms)) == 1
  {
    SampleFile();
    SamplePromotion();
  }
}
