/** What command arguments and members lists say, independently of how they are taken apart and put together. */
module Listings {

  import opened Options
  import opened RoomSpec
  import opened Rooms
  import opened RoomRegistries

  // ---------------------------------------------------------------- command arguments

  /** An argument that is a user and a permission around its only colon. */
  predicate IsPair(arg: string, user: UserId, permission: string) {
    arg == user + ":" + permission && ':' !in user && ':' !in permission
  }

  /** One more well-formed argument is one more change, and one more invitation when it names a user. */
  lemma PairRead(sid: SessionId, args: seq<string>, arg: string, user: UserId, permission: string)
    requires IsPair(arg, user, permission)
    ensures Changes(args + [arg]) == Changes(args) + [(user, permission)]
    ensures Invites(sid, args + [arg])
      == Invites(sid, args) + if user != "" then [Invite(sid, user, permission)] else []
  {
    hide Split;
    SplitPair(arg, ':', user, permission);
    assert [':'] == ":";
    assert (args + [arg])[..|args|] == args;
  }

  /** Any other argument is passed over. */
  lemma OtherSkipped(sid: SessionId, args: seq<string>, arg: string)
    requires forall user, permission :: !IsPair(arg, user, permission)
    ensures Changes(args + [arg]) == Changes(args) && Invites(sid, args + [arg]) == Invites(sid, args)
  {
    hide Split;
    assert (args + [arg])[..|args|] == args;
    TwoParts(arg);
  }

  lemma TwoParts(arg: string)
    ensures var parts := Split(arg, ':');
      |parts| == 2 ==> IsPair(arg, parts[0], parts[1])
  {
    hide Split;
    var parts := Split(arg, ':');
    if |parts| == 2 {
      SplitPair(arg, ':', parts[0], parts[1]);
      assert [':'] == ":" && parts == [parts[0], parts[1]];
    }
  }

  /**
   A request to share fails at an argument exactly when it invites a user and the room is gone, or has four invitees
   already, or a database or mail call for it fails.
   */
  lemma ArgFailsIff(g: Registry, sid: SessionId, args: seq<string>, outside: seq<bool>, n: nat)
    requires n < |args| == |outside|
    ensures var g' := After(g, Invites(sid, args[..n]));
      ArgFails(g, sid, args, outside, n) <==>
        exists user, permission | IsPair(args[n], user, permission) ::
          user != "" && (!outside[n] || sid !in g'.rooms || |g'.rooms[sid].invitees| >= 4)
  {
    hide Split, After, Invites;
    var parts := Split(args[n], ':');
    assert [':'] == ":";
    TwoParts(args[n]);
    forall user, permission | IsPair(args[n], user, permission) ensures parts == [user, permission] {
      SplitPair(args[n], ':', user, permission);
    }
  }

  // ---------------------------------------------------------------- members lists

  /** Joining parts without commas and splitting at the commas gives the parts back. */
  lemma {:induction false} SplitJoined(parts: seq<string>)
    requires parts != [] && forall p | p in parts :: ',' !in p
    ensures Split(CommaJoined(parts), ',') == parts
    decreases |parts|
  {
    hide Split;
    if |parts| == 1 {
      SplitWhole(parts[0], ',');
      assert Split(parts[0], ',') == [parts[0]];
    } else {
      SplitJoined(parts[1..]);
      var rest := CommaJoined(parts[1..]);
      assert parts[0] + "," + rest == parts[0] + [','] + rest;
      SplitFirst(parts[0], ',', rest);
      assert [parts[0]] + parts[1..] == parts;
    }
  }

  lemma NamesHaveNoComma()
    ensures ',' !in "mouse" && ',' !in "keyboard" && ',' !in "admin"
  {
  }

  lemma NamesDiffer()
    ensures "mouse" != "keyboard" && "mouse" != "admin" && "keyboard" != "admin"
  {
    assert |"mouse"| == 5 && |"keyboard"| == 8 && |"admin"| == 5;
    assert "mouse"[0] != "admin"[0];
  }

  lemma NamesShown(mouse: bool, keyboard: bool, role: Role)
    ensures var names := PermissionNames(mouse, keyboard, role);
      && ("mouse" in names <==> mouse)
      && ("keyboard" in names <==> keyboard)
      && ("admin" in names <==> role != Viewer)
      && (forall p | p in names :: p == "mouse" || p == "keyboard" || p == "admin")
  {
    NamesDiffer();
  }

  /** The entry of someone present: who it is, its role, and the words of exactly the rights it has. */
  lemma PresentShown(c: Client)
    ensures var m := PresentUser(c);
      var words := Split(m.permission, ',');
      && m.userId == c.userId && m.role == c.role && m.status == 1
      && ("mouse" in words <==> c.mouse)
      && ("keyboard" in words <==> c.keyboard)
      && ("admin" in words <==> c.role != Viewer)
      && (forall w | w in words && w != "" :: w == "mouse" || w == "keyboard" || w == "admin")
  {
    hide Split, PermissionNames;
    var names := PermissionNames(c.mouse, c.keyboard, c.role);
    NamesShown(c.mouse, c.keyboard, c.role);
    NamesHaveNoComma();
    if names == [] {
      NothingSplit();
    } else {
      SplitJoined(names);
    }
  }

  lemma NothingSplit()
    ensures Split("", ',') == [""] && CommaJoined([]) == ""
    ensures "mouse" !in [""] && "keyboard" !in [""] && "admin" !in [""]
  {
    assert |"mouse"| == 5 && |"keyboard"| == 8 && |"admin"| == 5;
  }

  /**
   What a members list shows: of those present their own role and rights; of the invited who are not, the invitation
   itself, and the role it would give to anyone but the creator.
   */
  lemma MembersShown(r: Room, members: seq<User>, m: User)
    requires RoomInv(r, r.sessionId) && Lists(r, members, r.users.Keys + r.invitees.Keys) && m in members
    ensures m.userId in r.users ==>
      var c := r.users[m.userId];
      var words := Split(m.permission, ',');
      && m.role == c.role && m.status == 1
      && ("mouse" in words <==> c.mouse)
      && ("keyboard" in words <==> c.keyboard)
      && ("admin" in words <==> c.role != Viewer)
    ensures m.userId !in r.users ==>
      && m.userId in r.invitees && m.permission == r.invitees[m.userId] && m.status == 0
      && m.role == if Contains(m.permission, "admin") then CoHost else Viewer
  {
    hide Split, Contains, PresentUser;
    if m.userId in r.users {
      PresentShown(r.users[m.userId]);
    }
  }
}
