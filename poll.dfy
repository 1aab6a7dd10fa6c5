/**
 * The body of `main`'s polling loop: for each decoded locker group, in
 * order, decide whether it is in range of the fixed reference point or
 * matches a configured name, and send one notification for each group that
 * does. A failed notification request ends the cycle.
 */
module Poll {
  import opened Wrappers
  import opened Model
  import opened Config

  /** The fixed reference point every group's distance is measured to. */
  const TARGET: Coordinates := (46.519704, 6.566954)

  const TOPIC: string := "epfl_lockers"

  const MESSAGE_PREFIX: string := "Lockers available at "

  /** A push message sent to a topic. */
  datatype Notification = Notification(topic: string, message: string)

  /**
   * The geodesic distance in metres between two points (Vincenty, falling
   * back to Haversine), left uninterpreted. The program passes each pair as
   * (latitude, longitude), while the geometry library reads x as the
   * longitude, so the measured distance is between axis-swapped points;
   * the model passes the same pairs in the same order.
   */
  type Distance = (Coordinates, Coordinates) -> real

  /** `is_in_range`: a maximum distance is configured and the group lies within it. */
  predicate IsInRange(args: Args, group: LockerGroup, distance: Distance) {
    match args.maxDistance
    case None => false
    case Some(maxDistance) => distance(group.coordinates, TARGET) <= maxDistance
  }

  /** `name_matches`: a name list is configured and holds the group's name. */
  predicate NameMatches(args: Args, group: LockerGroup) {
    match args.lockerGroups
    case None => false
    case Some(names) => group.name in names
  }

  predicate ShouldNotify(args: Args, group: LockerGroup, distance: Distance) {
    IsInRange(args, group, distance) || NameMatches(args, group)
  }

  function NotificationFor(group: LockerGroup): Notification {
    Notification(TOPIC, MESSAGE_PREFIX + group.name)
  }

  /** The notifications a cycle sends for `groups` when every request succeeds. */
  function Notifications(args: Args, groups: seq<LockerGroup>, distance: Distance): seq<Notification>
    decreases |groups|
  {
    if groups == [] then []
    else
      var last := groups[|groups| - 1];
      Notifications(args, groups[..|groups| - 1], distance)
        + (if ShouldNotify(args, last, distance) then [NotificationFor(last)] else [])
  }

  /** The console line printed before a notification is sent. */
  function ConsoleLine(name: string, isInRange: bool, nameMatches: bool): string {
    var and := isInRange || nameMatches;
    "Locker " + name + " "
      + (if isInRange then "is in range" else "")
      + (if and then " and " else "")
      + (if nameMatches then "name matches" else "")
      + ". Sending notification."
  }

  /**
   * The console lines a cycle prints for `groups` when every request
   * succeeds: one per notification, printed just before it.
   */
  function ConsoleLines(args: Args, groups: seq<LockerGroup>, distance: Distance): (r: seq<string>)
    ensures |r| == |Notifications(args, groups, distance)|
    decreases |groups|
  {
    if groups == [] then []
    else
      var last := groups[|groups| - 1];
      ConsoleLines(args, groups[..|groups| - 1], distance)
        + (if ShouldNotify(args, last, distance)
           then [ConsoleLine(last.name, IsInRange(args, last, distance), NameMatches(args, last))]
           else [])
  }

  ghost predicate Contains(s: string, part: string) {
    exists i :: ContainsAt(s, part, i)
  }

  ghost predicate ContainsAt(s: string, part: string, i: int) {
    0 <= i && i + |part| <= |s| && s[i..i + |part|] == part
  }

  /**
   * One pass of the `for_each` over the decoded groups. `delivered(k)` says
   * whether the `k`-th notification request of this cycle succeeds; the
   * first failure ends the cycle (the source's `unwrap`). `sent` is every
   * request made, in order, and `lines` the console line printed before each.
   */
  method RunCycle(args: Args, groups: seq<LockerGroup>, distance: Distance, delivered: nat -> bool)
    returns (sent: seq<Notification>, lines: seq<string>, ok: bool)
    ensures var all := Notifications(args, groups, distance);
      && (ok <==> forall k :: 0 <= k < |all| ==> delivered(k))
      && (ok ==> sent == all)
      && (!ok ==>
            && 0 < |sent| <= |all|
            && sent == all[..|sent|]
            && !delivered(|sent| - 1)
            && forall k :: 0 <= k < |sent| - 1 ==> delivered(k))
    ensures |lines| == |sent| && lines == ConsoleLines(args, groups, distance)[..|sent|]
    ensures forall line <- lines :: Contains(line, " and ")
  {
    sent, lines := [], [];
    var i := 0;
    while i < |groups|
      invariant 0 <= i <= |groups|
      invariant sent == Notifications(args, groups[..i], distance)
      invariant forall k :: 0 <= k < |sent| ==> delivered(k)
      invariant lines == ConsoleLines(args, groups[..i], distance)
      invariant forall line <- lines :: Contains(line, " and ")
    {
      var group := groups[i];
      var isInRange := IsInRange(args, group, distance);
      var nameMatches := NameMatches(args, group);
      NotificationsStep(args, groups, i, distance);
      ConsoleLinesStep(args, groups, i, distance);
      if isInRange || nameMatches {
        var line := ConsoleLine(group.name, isInRange, nameMatches);
        ConsoleLineSaysAnd(group.name, isInRange, nameMatches);
        lines := lines + [line];
        var attempt := |sent|;
        sent := sent + [NotificationFor(group)];
        if !delivered(attempt) {
          NotificationsPrefix(args, groups, i + 1, distance);
          ConsoleLinesPrefix(args, groups, i + 1, distance);
          return sent, lines, false;
        }
      }
      i := i + 1;
    }
    assert groups[..i] == groups;
    return sent, lines, true;
  }

  /** The next group adds its notification, if any, after those of the groups before it. */
  lemma NotificationsStep(args: Args, groups: seq<LockerGroup>, i: nat, distance: Distance)
    requires i < |groups|
    ensures Notifications(args, groups[..i + 1], distance) ==
      Notifications(args, groups[..i], distance)
        + (if ShouldNotify(args, groups[i], distance) then [NotificationFor(groups[i])] else [])
  {
    assert groups[..i + 1][..i] == groups[..i];
  }

  /** The next group adds its console line, if any, after those of the groups before it. */
  lemma ConsoleLinesStep(args: Args, groups: seq<LockerGroup>, i: nat, distance: Distance)
    requires i < |groups|
    ensures ConsoleLines(args, groups[..i + 1], distance) ==
      ConsoleLines(args, groups[..i], distance)
        + (if ShouldNotify(args, groups[i], distance)
           then [ConsoleLine(groups[i].name, IsInRange(args, groups[i], distance), NameMatches(args, groups[i]))]
           else [])
  {
    assert groups[..i + 1][..i] == groups[..i];
  }

  /** The console lines of a concatenation are those of each part, in order. */
  lemma {:induction false} ConsoleLinesAppend(args: Args, a: seq<LockerGroup>, b: seq<LockerGroup>, distance: Distance)
    ensures ConsoleLines(args, a + b, distance) == ConsoleLines(args, a, distance) + ConsoleLines(args, b, distance)
    decreases |b|
  {
    if b == [] {
      assert a + b == a;
    } else {
      var b' := b[..|b| - 1];
      assert (a + b)[..|a + b| - 1] == a + b';
      assert (a + b)[|a + b| - 1] == b[|b| - 1];
      ConsoleLinesAppend(args, a, b', distance);
    }
  }

  /** The console lines for a prefix of the groups come first. */
  lemma ConsoleLinesPrefix(args: Args, groups: seq<LockerGroup>, n: nat, distance: Distance)
    requires n <= |groups|
    ensures var all := ConsoleLines(args, groups, distance);
      var first := ConsoleLines(args, groups[..n], distance);
      |first| <= |all| && all[..|first|] == first
  {
    assert groups == groups[..n] + groups[n..];
    ConsoleLinesAppend(args, groups[..n], groups[n..], distance);
  }

  /** The notifications of a concatenation are those of each part, in order. */
  lemma {:induction false} NotificationsAppend(args: Args, a: seq<LockerGroup>, b: seq<LockerGroup>, distance: Distance)
    ensures Notifications(args, a + b, distance) == Notifications(args, a, distance) + Notifications(args, b, distance)
    decreases |b|
  {
    if b == [] {
      assert a + b == a;
    } else {
      var b' := b[..|b| - 1];
      assert (a + b)[..|a + b| - 1] == a + b';
      assert (a + b)[|a + b| - 1] == b[|b| - 1];
      NotificationsAppend(args, a, b', distance);
    }
  }

  /**
   * Each group contributes exactly one notification when it is in range or
   * its name matches, and none otherwise; together with
   * `NotificationsAppend` this fixes every cycle's notifications and their
   * order.
   */
  lemma NotificationsSingle(args: Args, group: LockerGroup, distance: Distance)
    ensures Notifications(args, [group], distance) ==
      if IsInRange(args, group, distance) || NameMatches(args, group)
      then [Notification("epfl_lockers", "Lockers available at " + group.name)]
      else []
  {
    assert [group][..0] == [];
  }

  /** The notifications for a prefix of the groups come first. */
  lemma NotificationsPrefix(args: Args, groups: seq<LockerGroup>, n: nat, distance: Distance)
    requires n <= |groups|
    ensures var all := Notifications(args, groups, distance);
      var first := Notifications(args, groups[..n], distance);
      |first| <= |all| && all[..|first|] == first
  {
    assert groups == groups[..n] + groups[n..];
    NotificationsAppend(args, groups[..n], groups[n..], distance);
  }

  /** A notification is sent for a group exactly when that group matches. */
  lemma {:induction false} NotificationsMembers(args: Args, groups: seq<LockerGroup>, distance: Distance, n: Notification)
    ensures n in Notifications(args, groups, distance) <==>
      exists i :: 0 <= i < |groups| && ShouldNotify(args, groups[i], distance) && n == NotificationFor(groups[i])
    decreases |groups|
  {
    if groups != [] {
      var init := groups[..|groups| - 1];
      NotificationsMembers(args, init, distance, n);
      if exists i :: 0 <= i < |init| && ShouldNotify(args, init[i], distance) && n == NotificationFor(init[i]) {
        var i :| 0 <= i < |init| && ShouldNotify(args, init[i], distance) && n == NotificationFor(init[i]);
        assert groups[i] == init[i];
      }
      if exists i :: 0 <= i < |groups| && ShouldNotify(args, groups[i], distance) && n == NotificationFor(groups[i]) {
        var i :| 0 <= i < |groups| && ShouldNotify(args, groups[i], distance) && n == NotificationFor(groups[i]);
        if i < |init| {
          assert init[i] == groups[i];
        }
      }
    }
  }

  /** Every notification goes to the one topic and names a locker group. */
  lemma {:induction false} NotificationsShape(args: Args, groups: seq<LockerGroup>, distance: Distance)
    ensures forall k :: 0 <= k < |Notifications(args, groups, distance)| ==>
      var n := Notifications(args, groups, distance)[k];
      n.topic == "epfl_lockers" && |n.message| >= |MESSAGE_PREFIX| && n.message[..|MESSAGE_PREFIX|] == MESSAGE_PREFIX
    decreases |groups|
  {
    if groups != [] {
      NotificationsShape(args, groups[..|groups| - 1], distance);
    }
  }

  /** Without a maximum distance or a name list, a cycle sends nothing. */
  lemma {:induction false} NoFilterNoNotifications(args: Args, groups: seq<LockerGroup>, distance: Distance)
    requires args.maxDistance.None? && args.lockerGroups.None?
    ensures Notifications(args, groups, distance) == []
    decreases |groups|
  {
    if groups != [] {
      NoFilterNoNotifications(args, groups[..|groups| - 1], distance);
    }
  }

  /** Without a maximum distance no group is in range, however close. */
  lemma InRangeNeedsMaximum(args: Args, group: LockerGroup, distance: Distance)
    ensures args.maxDistance.None? ==> !IsInRange(args, group, distance)
    ensures args.maxDistance.Some? ==>
      (IsInRange(args, group, distance) <==> distance(group.coordinates, TARGET) <= args.maxDistance.value)
  {
  }

  /**
   * With the configuration read from `env`, a group's name matches iff
   * `locker_groups` is set and the name is one of its comma-separated fields.
   */
  lemma NameMatchesFromEnv(env: Env, parseF64: string -> Option<real>, group: LockerGroup)
    requires FromEnv(env, parseF64).Success?
    ensures NameMatches(FromEnv(env, parseF64).value, group) <==>
      Var(env, "locker_groups").Success? && IsField(Var(env, "locker_groups").value, group.name, ',')
  {
    LockerGroupsFromEnv(env, parseF64);
  }

  /** Inside the notifying branch the separator is always printed. */
  lemma ConsoleLineSaysAnd(name: string, isInRange: bool, nameMatches: bool)
    requires isInRange || nameMatches
    ensures Contains(ConsoleLine(name, isInRange, nameMatches), " and ")
  {
    var line := ConsoleLine(name, isInRange, nameMatches);
    var before := "Locker " + name + " " + (if isInRange then "is in range" else "");
    var after := (if nameMatches then "name matches" else "") + ". Sending notification.";
    assert line == before + " and " + after;
    var i := |before|;
    assert line[i..i + 5] == " and ";
    assert ContainsAt(line, " and ", i);
  }

  /** The two locker groups of the example below, and the distances the example assumes. */
  const NEAR: LockerGroup := LockerGroup("A", (46.52, 6.57), 0)
  const NAMED: LockerGroup := LockerGroup("B", (46.6, 6.7), 1)

  function ExampleDistance(p: Coordinates, q: Coordinates): real {
    if p == NEAR.coordinates then 500.0 else 2000.0
  }

  /** The crafted response of two groups decodes to exactly those groups. */
  lemma ExampleResponse()
    ensures ParseTree(EncodeResponse([NEAR, NAMED])) == Success([NEAR, NAMED])
  {
    ParseRoundTrip([NEAR, NAMED]);
  }

  /**
   * With a 1000 m limit and the name list ["B"], the group 500 m away is in
   * range, the one 2000 m away is not but matches by name, and the cycle
   * sends one notification for each, in order.
   */
  lemma ExampleCycle()
    ensures
      var args := Args("session", Some(1000.0), 3600, Some(["B"]));
      && IsInRange(args, NEAR, ExampleDistance) && !IsInRange(args, NAMED, ExampleDistance)
      && !NameMatches(args, NEAR) && NameMatches(args, NAMED)
      && Notifications(args, [NEAR, NAMED], ExampleDistance) ==
           [Notification("epfl_lockers", "Lockers available at A"),
            Notification("epfl_lockers", "Lockers available at B")]
  {
    var args := Args("session", Some(1000.0), 3600, Some(["B"]));
    NotificationsAppend(args, [NEAR], [NAMED], ExampleDistance);
    NotificationsSingle(args, NEAR, ExampleDistance);
    NotificationsSingle(args, NAMED, ExampleDistance);
    assert [NEAR] + [NAMED] == [NEAR, NAMED];
    assert MESSAGE_PREFIX + NEAR.name == "Lockers available at A";
    assert MESSAGE_PREFIX + NAMED.name == "Lockers available at B";
  }
}
