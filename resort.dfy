/**
 * The resort exercise (Resort.c) on the heap: guests, rooms and a resort as
 * objects, with the constructors, the VIP flag update, the two counters and
 * the reader of the resort text format.
 *
 * C keeps a room's guests, and a resort's rooms, in malloc'ed arrays of
 * structs; here they are arrays of references to freshly allocated objects.
 * Each room and resort carries a ghost footprint `Repr`, and its contents
 * are described by the records of ResortData (`Info()`).
 */
module Resorts {
  import opened Wrappers
  import opened CStrings
  import opened ResortData

  class Guest {
    var firstName: string
    var lastName: string
    var vip: bool

    constructor (firstName: string, lastName: string, vip: bool)
      ensures this.firstName == firstName && this.lastName == lastName && this.vip == vip
    {
      this.firstName := firstName;
      this.lastName := lastName;
      this.vip := vip;
    }

    function Info(): GuestInfo
      reads this
    {
      GuestInfo(firstName, lastName, vip)
    }
  }

  class Room {
    var number: int
    var floor: int
    var totalGuests: int
    var guests: array?<Guest?>
    /** The guests the room holds, as records. */
    ghost var Guests: seq<GuestInfo>
    ghost var Repr: set<object>

    constructor (number: int, floor: int, totalGuests: int, guests: array?<Guest?>,
                 ghost contents: seq<GuestInfo>, ghost parts: set<object>)
      requires guests != null ==> guests in parts
      requires guests != null && totalGuests >= 0 ==>
        && totalGuests <= guests.Length && |contents| == totalGuests
        && (forall j :: 0 <= j < totalGuests ==>
              guests[j] != null && guests[j] in parts && contents[j] == guests[j].Info())
        && forall j, k :: 0 <= j < k < totalGuests ==> guests[j] != guests[k]
      ensures this.number == number && this.floor == floor && this.totalGuests == totalGuests
      ensures this.guests == guests && Guests == contents && Repr == {this} + parts
      ensures Valid()
    {
      this.number := number;
      this.floor := floor;
      this.totalGuests := totalGuests;
      this.guests := guests;
      Guests := contents;
      Repr := {this} + parts;
    }

    /**
     * The footprint holds the guest array and its first totalGuests guests,
     * which are all present, are distinct objects (the C array holds them by
     * value) and are what Guests records.
     */
    ghost predicate Valid()
      reads this, Repr
    {
      && this in Repr
      && (guests != null ==>
            && guests in Repr
            && (totalGuests >= 0 ==>
                  && totalGuests <= guests.Length
                  && |Guests| == totalGuests
                  && (forall j :: 0 <= j < totalGuests ==>
                        guests[j] != null && guests[j] in Repr && Guests[j] == guests[j].Info())
                  && forall j, k :: 0 <= j < k < totalGuests ==> guests[j] != guests[k]))
    }

    /** The checks getVipGuestsCount makes before it reads the guests. */
    predicate Readable()
      reads this
    {
      guests != null && totalGuests >= 0
    }

    ghost function Info(): RoomInfo
      reads this
    {
      RoomInfo(number, floor, Guests)
    }

    /**
     * makeVip on guest i of the room, `makeVip(&room->guests[i])`: that
     * guest's record becomes Promoted and nothing else in the room changes.
     */
    method MakeGuestVip(i: nat) returns (status: int)
      requires Valid() && Readable() && i < totalGuests
      modifies this, guests[i]
      ensures Valid() && Readable() && Repr == old(Repr)
      ensures number == old(number) && floor == old(floor)
      ensures totalGuests == old(totalGuests) && guests == old(guests)
      ensures status == 0
      ensures Guests == old(Guests)[i := Promoted(old(Guests[i]))]
    {
      status := MakeVip(guests[i]);
      Guests := Guests[i := Promoted(Guests[i])];
    }
  }

  class Resort {
    var name: string
    var totalRooms: int
    var rooms: array?<Room?>
    /** The rooms the resort holds, as records. */
    ghost var Rooms: seq<RoomInfo>
    ghost var Repr: set<object>

    constructor (name: string, totalRooms: int, rooms: array?<Room?>,
                 ghost contents: seq<RoomInfo>, ghost parts: set<object>)
      requires rooms != null ==> rooms in parts
      requires rooms != null && totalRooms > 0 ==>
        && totalRooms <= rooms.Length && |contents| == totalRooms
        && forall k :: 0 <= k < totalRooms ==>
             && rooms[k] != null && rooms[k] in parts && rooms[k].Repr <= parts
             && rooms[k].Valid() && contents[k] == rooms[k].Info() && rooms !in rooms[k].Repr
      requires rooms != null && totalRooms > 0 ==>
        forall k, l :: 0 <= k < l < totalRooms ==> rooms[k].Repr !! rooms[l].Repr
      ensures this.name == name && this.totalRooms == totalRooms && this.rooms == rooms
      ensures Rooms == contents && Repr == {this} + parts
      ensures Valid()
    {
      this.name := name;
      this.totalRooms := totalRooms;
      this.rooms := rooms;
      Rooms := contents;
      Repr := {this} + parts;
    }

    /**
     * The footprint holds the room array and every room's footprint; the
     * rooms' footprints are disjoint and hold neither the resort nor the
     * array (the C array holds the rooms by value); every room is valid;
     * when every room is readable, Rooms records them in order.
     */
    ghost predicate Valid()
      reads this, Repr
    {
      && this in Repr
      && (rooms != null && totalRooms > 0 ==>
            && rooms in Repr
            && totalRooms <= rooms.Length
            && (forall k :: 0 <= k < totalRooms ==>
                  && rooms[k] != null && rooms[k] in Repr && rooms[k].Repr <= Repr && rooms[k].Valid()
                  && this !in rooms[k].Repr && rooms !in rooms[k].Repr)
            && (forall k, l :: 0 <= k < l < totalRooms ==> rooms[k].Repr !! rooms[l].Repr)
            && ((forall k :: 0 <= k < totalRooms ==> rooms[k].Readable()) ==>
                  |Rooms| == totalRooms && forall k :: 0 <= k < totalRooms ==> Rooms[k] == rooms[k].Info()))
    }

    /** The checks getLuxuryRoomsCount makes, on the resort and on every room. */
    ghost predicate Readable()
      requires Valid()
      reads this, Repr
    {
      rooms != null && totalRooms > 0 && forall k :: 0 <= k < totalRooms ==> rooms[k].Readable()
    }

    ghost function Info(): ResortInfo
      reads this
    {
      ResortInfo(name, Rooms)
    }
  }

  /**
   * createGuest: NULL when a name is NULL or empty; otherwise a new guest
   * holding copies of both names, not VIP.
   */
  method CreateGuest(firstName: Option<string>, lastName: Option<string>) returns (guest: Guest?)
    ensures guest == null <==> NewGuest(firstName, lastName).None?
    ensures guest != null ==> fresh(guest) && guest.Info() == NewGuest(firstName, lastName).value
  {
    if firstName.None? || Strlen(firstName.value) == 0 || lastName.None? || Strlen(lastName.value) == 0 {
      return null;
    }
    guest := new Guest(Strdup(firstName).value, Strdup(lastName).value, false);
  }

  /** makeVip: -1 for NULL; otherwise the guest becomes VIP, whatever it was, and 0. */
  method MakeVip(guest: Guest?) returns (status: int)
    modifies guest
    ensures status == (if guest == null then -1 else 0)
    ensures guest != null ==> guest.Info() == Promoted(old(guest.Info()))
  {
    if guest == null {
      return -1;
    }
    guest.vip := true;
    return 0;
  }

  /**
   * makeVip on guest i of room r of a resort, `makeVip(&resort->rooms[r].guests[i])`
   * as the main program calls it: the guest becomes VIP, and so does its
   * record in the room and in the resort; nothing else changes.
   */
  method MakeRoomGuestVip(resort: Resort, r: nat, i: nat) returns (status: int)
    requires resort.Valid() && resort.Readable()
    requires r < resort.totalRooms && i < resort.rooms[r].totalGuests
    modifies resort, resort.rooms[r], resort.rooms[r].guests[i]
    ensures resort.Valid() && resort.Readable() && resort.Repr == old(resort.Repr)
    ensures resort.rooms == old(resort.rooms) && resort.totalRooms == old(resort.totalRooms)
    ensures resort.rooms[r].totalGuests == old(resort.rooms[r].totalGuests)
    ensures status == 0
    ensures resort.Info() == old(resort.Info()).(rooms := old(resort.Rooms)[r :=
      old(resort.Rooms[r]).(guests := old(resort.Rooms[r].guests)[i := Promoted(old(resort.Rooms[r].guests[i]))])])
  {
    var room := resort.rooms[r];
    status := room.MakeGuestVip(i);
    resort.Rooms := resort.Rooms[r := room.Info()];
    forall k | 0 <= k < resort.totalRooms
      ensures resort.rooms[k].Valid() && resort.rooms[k].Readable()
      ensures resort.Rooms[k] == resort.rooms[k].Info()
    {
      if k != r {
        assert resort.rooms[k].Repr !! room.Repr;
      }
    }
  }

  /**
   * Step 3 of the main program (Resort.c:479-485): when the resort has at
   * least two rooms, the first three guests of the second room (all of them
   * if it has fewer) become VIP, one makeVip call each.
   */
  method PromoteLuxuryRoom(resort: Resort)
    requires resort.Valid() && resort.Readable()
    modifies resort, resort.Repr
    ensures resort.Valid() && resort.Readable()
    ensures resort.Info() == old(resort.Info()).(rooms := MainPromotion(old(resort.Info().rooms)))
  {
    if resort.totalRooms < 2 {
      return;
    }
    ghost var rooms0 := resort.Rooms;
    ghost var name0 := resort.name;
    ghost var repr0 := resort.Repr;
    var room := resort.rooms[1];
    var guests0 := room.Guests;
    var i := 0;
    assert PromoteFirst(guests0, 0) == guests0;
    assert rooms0[1 := rooms0[1].(guests := guests0)] == rooms0;
    while i < 3 && i < room.totalGuests
      invariant resort.Valid() && resort.Readable() && resort.Repr == repr0
      invariant resort.totalRooms >= 2 && resort.rooms[1] == room && |rooms0| == resort.totalRooms
      invariant |guests0| == room.totalGuests && rooms0[1].guests == guests0
      invariant 0 <= i <= room.totalGuests
      invariant resort.Info() == ResortInfo(name0, rooms0[1 := rooms0[1].(guests := PromoteFirst(guests0, i))])
      decreases 3 - i
    {
      PromoteNext(guests0, i);
      var status := MakeRoomGuestVip(resort, 1, i);
      i := i + 1;
    }
    assert PromoteFirst(guests0, i) == PromoteFirst(guests0, 3);
  }

  /**
   * The main program (Resort.c:443-505) from reading the file it wrote to
   * counting the luxury rooms: exactly one, the second room.
   */
  method SampleSession() returns (luxury: int)
    ensures luxury == 1
  {
    SampleOutcome();
    var resort := CreateResortFromFile(Some(SampleTokens()));
    PromoteLuxuryRoom(resort);
    luxury := GetLuxuryRoomsCount(resort);
  }

  /**
   * createRoom: NULL unless number > 0, floor >= 0, the guest array is
   * present and guestsCount > 0; otherwise a new room whose guests are new
   * objects holding copies of the given guests, in order.
   */
  method CreateRoom(number: int, floor: int, guests: array?<Guest?>, guestsCount: int) returns (room: Room?)
    requires guests != null && guestsCount > 0 ==> guestsCount <= guests.Length
    requires guests != null && guestsCount > 0 ==> forall i :: 0 <= i < guestsCount ==> guests[i] != null
    ensures room == null <==> guests == null || !RoomAccepted(number, floor, guestsCount)
    ensures room != null ==> room.Valid() && room.Readable() && fresh(room.Repr)
    ensures room != null ==> room.number == number && room.floor == floor && room.totalGuests == guestsCount
    ensures room != null ==> |room.Guests| == guestsCount
    ensures room != null ==> forall j :: 0 <= j < guestsCount ==> room.Guests[j] == Copied(guests[j].Info())
  {
    if number <= 0 || floor < 0 || guests == null || guestsCount <= 0 {
      return null;
    }
    var copies, contents, parts := CopyGuests(guests, guestsCount);
    room := new Room(number, floor, guestsCount, copies, contents, parts);
  }

  /**
   * The deep-copy loop of createRoom: a new array of new guests, each a copy
   * of the source guest; `contents` records the copies.
   */
  method CopyGuests(guests: array<Guest?>, count: nat)
      returns (copies: array<Guest?>, ghost contents: seq<GuestInfo>, ghost parts: set<object>)
    requires count <= guests.Length && forall i :: 0 <= i < count ==> guests[i] != null
    ensures fresh(parts) && copies in parts && copies.Length == count && |contents| == count
    ensures forall j :: 0 <= j < count ==>
              copies[j] != null && copies[j] in parts && contents[j] == copies[j].Info()
    ensures forall j :: 0 <= j < count ==> contents[j] == Copied(guests[j].Info())
    ensures forall j, k :: 0 <= j < k < count ==> copies[j] != copies[k]
  {
    copies := new Guest?[count];
    contents := [];
    parts := {copies};
    for i := 0 to count
      invariant fresh(parts) && copies in parts && |contents| == i
      invariant forall j :: 0 <= j < i ==>
                  copies[j] != null && copies[j] in parts && contents[j] == copies[j].Info()
      invariant forall j :: 0 <= j < i ==> contents[j] == Copied(guests[j].Info())
      invariant forall j, k :: 0 <= j < k < i ==> copies[j] != copies[k]
    {
      var source := guests[i];
      var copy := new Guest(Strdup(Some(source.firstName)).value, Strdup(Some(source.lastName)).value, source.vip);
      copies[i] := copy;
      contents := contents + [copy.Info()];
      parts := parts + {copy};
    }
  }

  /** getVipGuestsCount: -1 for a missing room or guest array or a negative count; otherwise the VIPs. */
  method GetVipGuestsCount(room: Room?) returns (count: int)
    requires room != null ==> room.Valid()
    ensures room == null || !room.Readable() ==> count == -1
    ensures room != null && room.Readable() ==> count == VipCount(room.Info().guests) && 0 <= count <= room.totalGuests
  {
    if room == null || room.guests == null || room.totalGuests < 0 {
      return -1;
    }
    count := 0;
    for i := 0 to room.totalGuests
      invariant count == VipCount(room.Guests[..i])
    {
      assert room.Guests[..i + 1] == room.Guests[..i] + [room.Guests[i]];
      VipCountStep(room.Guests[..i], room.Guests[i]);
      if room.guests[i].vip {
        count := count + 1;
      }
    }
    assert room.Guests[..room.totalGuests] == room.Guests;
  }

  /**
   * getLuxuryRoomsCount: -1 for a missing resort or room array, a
   * non-positive room count, or any room getVipGuestsCount refuses;
   * otherwise the number of rooms with at least LuxuryThreshold VIPs.
   */
  method GetLuxuryRoomsCount(resort: Resort?) returns (luxury: int)
    requires resort != null ==> resort.Valid()
    ensures resort == null || !resort.Readable() ==> luxury == -1
    ensures resort != null && resort.Readable() ==> luxury == LuxuryCount(resort.Info().rooms)
    ensures resort != null && resort.Readable() ==> 0 <= luxury <= resort.totalRooms
  {
    if resort == null || resort.rooms == null || resort.totalRooms <= 0 {
      return -1;
    }
    ghost var readable := resort.Readable();
    luxury := CountLuxuryRooms(resort.rooms, resort.totalRooms, readable, resort.Rooms);
  }

  /**
   * The loop of getLuxuryRoomsCount over the first `total` rooms: -1 as soon
   * as a room is refused, otherwise the number of luxury rooms. `readable`
   * says whether no room will be refused, and then `infos` records them.
   */
  method CountLuxuryRooms(rooms: array<Room?>, total: nat, ghost readable: bool, ghost infos: seq<RoomInfo>)
      returns (luxury: int)
    requires total <= rooms.Length
    requires forall k :: 0 <= k < total ==> rooms[k] != null && rooms[k].Valid()
    requires readable <==> forall k :: 0 <= k < total ==> rooms[k].Readable()
    requires readable ==> |infos| == total && forall k :: 0 <= k < total ==> infos[k] == rooms[k].Info()
    ensures !readable <==> luxury == -1
    ensures readable ==> luxury == LuxuryCount(infos)
  {
    luxury := 0;
    for i := 0 to total
      invariant forall k :: 0 <= k < i ==> rooms[k].Readable()
      invariant 0 <= luxury <= i
      invariant readable ==> luxury == LuxuryCount(infos[..i])
    {
      var vipCount := GetVipGuestsCount(rooms[i]);
      if vipCount == -1 {
        return -1;
      }
      if readable {
        assert infos[..i + 1] == infos[..i] + [infos[i]];
        LuxuryCountStep(infos[..i], infos[i]);
      }
      if vipCount >= LuxuryThreshold {
        luxury := luxury + 1;
      }
    }
    assert infos[..total] == infos;
  }

  /**
   * createResortFromFile over the whitespace-separated tokens of the file
   * (None for a NULL stream): NULL exactly when the tokens do not form a
   * resort; otherwise a new resort holding what ParseResort reads.
   */
  method CreateResortFromFile(input: Option<seq<string>>) returns (resort: Resort?)
    ensures resort == null <==> input.None? || ParseResort(input.value).None?
    ensures resort != null ==> resort.Valid() && resort.Readable() && fresh(resort.Repr)
    ensures resort != null ==> resort.Info() == ParseResort(input.value).value
  {
    if input.None? {
      return null;
    }
    var tokens := input.value;
    var header := ParseHeader(tokens);
    if header.None? {
      return null;
    }
    var name, total := header.value.0, header.value.1;
    var rooms, next, ok;
    ghost var infos, repr;
    rooms, next, ok, infos, repr := ReadRooms(tokens, 2, total);
    if !ok {
      return null;
    }
    resort := new Resort(Strdup(Some(name)).value, total, rooms, infos, repr);
  }

  /**
   * The room loop of createResortFromFile: `total` rooms from `start` on,
   * into a new array; `ok` is false as soon as a room is refused.
   */
  method ReadRooms(tokens: seq<string>, start: nat, total: nat)
      returns (rooms: array<Room?>, next: nat, ok: bool, ghost infos: seq<RoomInfo>, ghost repr: set<object>)
    requires start <= |tokens|
    ensures ok <==> ParseRooms(tokens, start, total).Some?
    ensures ok ==> ParseRooms(tokens, start, total) == Some((infos, next))
    ensures fresh(repr) && rooms in repr && rooms.Length == total
    ensures ok ==> forall k :: 0 <= k < total ==>
                     && rooms[k] != null && rooms[k] in repr && rooms[k].Repr <= repr
                     && rooms[k].Valid() && rooms[k].Readable() && infos[k] == rooms[k].Info()
                     && rooms !in rooms[k].Repr
    ensures ok ==> forall k, l :: 0 <= k < l < total ==> rooms[k].Repr !! rooms[l].Repr
  {
    rooms := new Room?[total];
    next := start;
    infos := [];
    repr := {rooms};
    ghost var made: seq<Room?> := [];
    for r := 0 to total
      invariant ParseRooms(tokens, start, r) == Some((infos, next))
      invariant fresh(repr) && rooms in repr && |made| == r
      invariant rooms[..r] == made
      invariant forall k :: 0 <= k < r ==>
                  && made[k] != null && made[k].Repr <= repr && rooms !in made[k].Repr
                  && made[k].Valid() && made[k].Readable() && infos[k] == made[k].Info()
      invariant forall k, l :: 0 <= k < l < r ==> made[k].Repr !! made[l].Repr
    {
      RoomsStep(tokens, start, r, infos, next);
      var room, after, info := ReadRoom(tokens, next);
      if room == null {
        RoomsFailureStays(tokens, start, r + 1, total);
        return rooms, next, false, infos, repr;
      }
      assert room.Repr !! repr;
      rooms[r] := room;
      made := made + [room];
      infos := infos + [info];
      repr := repr + room.Repr;
      next := after;
    }
    ok := true;
    assert rooms[..] == made;
  }

  /**
   * One room of createResortFromFile: its line, checked, then its guest
   * lines; NULL as soon as a check fails. `next` is the position after the
   * room's last guest, and `info` records the new room.
   */
  method ReadRoom(tokens: seq<string>, pos: nat) returns (room: Room?, next: nat, ghost info: RoomInfo)
    ensures room == null <==> ParseRoom(tokens, pos).None?
    ensures room != null ==> room.Valid() && room.Readable() && fresh(room.Repr) && room.Info() == info
    ensures room != null ==> ParseRoom(tokens, pos) == Some((info, next))
  {
    info := RoomInfo(0, 0, []);
    var header := ParseRoomHeader(tokens, pos);
    if header.None? {
      return null, pos, info;
    }
    var number, floor, count := header.value.0, header.value.1, header.value.2;
    var guests, ok;
    ghost var contents, parts;
    guests, next, ok, contents, parts := ReadGuests(tokens, pos + 3, count);
    if !ok {
      return null, pos, info;
    }
    room := new Room(number, floor, count, guests, contents, parts);
    info := room.Info();
  }

  /**
   * The guest loop of createResortFromFile: `count` guest lines from `start`
   * on, each through createGuest, into a new array; `ok` is false as soon
   * as a line is missing or createGuest refuses it.
   */
  method ReadGuests(tokens: seq<string>, start: nat, count: nat)
      returns (guests: array<Guest?>, next: nat, ok: bool, ghost contents: seq<GuestInfo>, ghost parts: set<object>)
    requires start <= |tokens|
    ensures ok <==> ParseGuests(tokens, start, count).Some?
    ensures ok ==> ParseGuests(tokens, start, count) == Some((contents, next))
    ensures fresh(parts) && guests in parts && guests.Length == count
    ensures ok ==> forall j :: 0 <= j < count ==>
                     guests[j] != null && guests[j] in parts && contents[j] == guests[j].Info()
    ensures ok ==> forall j, k :: 0 <= j < k < count ==> guests[j] != guests[k]
  {
    guests := new Guest?[count];
    contents := [];
    parts := {guests};
    next := start;
    ghost var made: seq<Guest?> := [];
    for g := 0 to count
      invariant ParseGuests(tokens, start, g) == Some((contents, next))
      invariant fresh(parts) && guests in parts && |made| == g && guests[..g] == made
      invariant forall j :: 0 <= j < g ==> made[j] != null && made[j] in parts
      invariant forall j :: 0 <= j < g ==> contents[j] == made[j].Info()
      invariant forall j, k :: 0 <= j < k < g ==> made[j] != made[k]
    {
      GuestsStep(tokens, start, g, contents, next);
      var guest := ReadGuest(tokens, next);
      if guest == null {
        GuestsFailureStays(tokens, start, g + 1, count);
        return guests, next, false, contents, parts;
      }
      assert guest !in parts;
      assert forall j :: 0 <= j < g ==> made[j] != guest;
      guests[g] := guest;
      made := made + [guest];
      contents := contents + [guest.Info()];
      parts := parts + {guest};
      next := next + 2;
    }
    ok := true;
    assert guests[..] == made;
  }

  /** One guest line of createResortFromFile: two name tokens, then createGuest. */
  method ReadGuest(tokens: seq<string>, pos: nat) returns (guest: Guest?)
    ensures guest == null <==> ParseGuest(tokens, pos).None?
    ensures guest != null ==> fresh(guest) && guest.Info() == ParseGuest(tokens, pos).value.0
  {
    if pos + 2 > |tokens| {
      return null;
    }
    guest := CreateGuest(Some(tokens[pos]), Some(tokens[pos + 1]));
  }
}
