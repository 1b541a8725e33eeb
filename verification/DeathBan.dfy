/**
 * The death-ban life cycle: a death bans a player, a join attempt either
 * turns a banned player away or lifts an expired ban, and every 1201st
 * server tick a sweep drops every expired ban. Each handler takes the
 * current time `now` and returns the new ban list together with the
 * disconnect message it sends and whether it saves the ban file.
 */
module DeathBan {
  import opened Wrappers
  import opened JavaInt
  import opened BigEndian
  import opened BanPolicy
  import opened BanStore
  import opened BanFile

  /** A connected player: their UUID and whether they hold permission level 4. */
  datatype Player = Player(id: Uuid, hasPermissionLevel4: bool)

  /** The entity a death event is about. */
  datatype Entity = PlayerEntity(player: Player) | OtherEntity

  /**
   * What a handler leaves behind: the ban list, the message the player is
   * disconnected with (if any), and whether `saveBans` ran on that list.
   */
  datatype Outcome = Outcome(bans: BanList, kick: Option<string>, saved: bool)

  const KICK_PREFIX: string := "You died! Come back in "

  /** The number of ticks the counter must reach before a tick sweeps. */
  const SWEEP_THRESHOLD: int := 1200

  /** The disconnect message for a ban with `millis` left. */
  function KickMessage(millis: Int64): (msg: string) {
    KICK_PREFIX + FormatTime(millis)
  }

  /** `shouldBypass`: the player is exempt from the whole mechanism. */
  predicate ShouldBypass(config: Config, player: Player) {
    config.excludeOps && player.hasPermissionLevel4
  }

  /**
   * The death handler with `banPlayer`: a non-exempt player's ban starts
   * now, replacing any earlier one, the list is saved, and the player is
   * disconnected with the full ban duration.
   */
  function OnDeath(config: Config, bans: BanList, entity: Entity, now: Int64): (r: Outcome)
    ensures (entity.OtherEntity? || ShouldBypass(config, entity.player)) ==> r == Outcome(bans, None, false)
    ensures entity.PlayerEntity? && !ShouldBypass(config, entity.player) ==>
      && r.bans.Keys == bans.Keys + {entity.player.id}
      && r.bans[entity.player.id] == now
      && (forall id :: id in bans && id != entity.player.id ==> r.bans[id] == bans[id])
      && r.kick == Some(KickMessage(TotalBanMillis(config)))
      && r.saved
  {
    match entity
    case OtherEntity => Outcome(bans, None, false)
    case PlayerEntity(player) =>
      if ShouldBypass(config, player) then Outcome(bans, None, false)
      else Outcome(bans[player.id := now], Some(KickMessage(TotalBanMillis(config))), true)
  }

  /**
   * `checkBanStatus`: an unbanned player passes untouched; a banned player
   * with time remaining is disconnected with that time; otherwise the ban
   * is lifted and the list saved.
   */
  function CheckBanStatus(config: Config, bans: BanList, id: Uuid, now: Int64): (r: Outcome)
    ensures id !in bans ==> r == Outcome(bans, None, false)
    ensures id in bans && Remaining(bans[id], TotalBanMillis(config), now) > 0 ==>
      r == Outcome(bans, Some(KickMessage(Remaining(bans[id], TotalBanMillis(config), now))), false)
    ensures id in bans && Remaining(bans[id], TotalBanMillis(config), now) <= 0 ==>
      && r.bans.Keys == bans.Keys - {id}
      && (forall other :: other in r.bans ==> r.bans[other] == bans[other])
      && r.kick.None?
      && r.saved
  {
    if id !in bans then Outcome(bans, None, false)
    else
      var remaining := Remaining(bans[id], TotalBanMillis(config), now);
      if remaining > 0 then Outcome(bans, Some(KickMessage(remaining)), false)
      else Outcome(bans - {id}, None, true)
  }

  /** The join handler: no player, or an exempt one, leaves everything as it is. */
  function OnJoin(config: Config, bans: BanList, player: Option<Player>, now: Int64): (r: Outcome)
    ensures player.None? || ShouldBypass(config, player.value) ==> r == Outcome(bans, None, false)
    ensures r.bans.Keys <= bans.Keys
    ensures forall id :: id in r.bans ==> r.bans[id] == bans[id]
    ensures player.Some? && r.bans != bans ==> r.bans.Keys == bans.Keys - {player.value.id}
  {
    match player
    case None => Outcome(bans, None, false)
    case Some(p) =>
      if ShouldBypass(config, p) then Outcome(bans, None, false)
      else CheckBanStatus(config, bans, p.id, now)
  }

  /** `cleanUpExpiredBans`: the bans still in force at `now`, unchanged. */
  function Sweep(config: Config, bans: BanList, now: Int64): (r: BanList)
    ensures r.Keys <= bans.Keys
    ensures forall id :: id in r ==> r[id] == bans[id] && !SweepExpired(bans[id], TotalBanMillis(config), now)
    ensures forall id :: id in bans && !SweepExpired(bans[id], TotalBanMillis(config), now) ==> id in r
  {
    map id | id in bans && !SweepExpired(bans[id], TotalBanMillis(config), now) :: bans[id]
  }

  /**
   * `removeIf` over the entry set as a loop: each entry is visited once
   * and removed when expired. It computes exactly `Sweep`.
   */
  method RemoveExpired(config: Config, bans: BanList, now: Int64) returns (kept: BanList)
    ensures kept == Sweep(config, bans, now)
  {
    var total := TotalBanMillis(config);
    kept := bans;
    var pending := bans.Keys;
    while pending != {}
      invariant pending <= bans.Keys
      invariant kept.Keys <= bans.Keys
      invariant forall id :: id in kept ==> kept[id] == bans[id]
      invariant forall id :: id in pending ==> id in kept
      invariant forall id :: id in bans && id !in pending ==> (id in kept <==> !SweepExpired(bans[id], total, now))
      decreases pending
    {
      var id :| id in pending;
      if SweepExpired(bans[id], total, now) {
        kept := kept - {id};
      }
      pending := pending - {id};
    }
  }

  /**
   * One `START_SERVER_TICK`: `tickCounter++ >= 1200` compares the counter
   * before the increment; a sweep resets it to zero.
   */
  function Tick(counter: Int32): (r: (Int32, bool))
    ensures r.1 <==> counter >= SWEEP_THRESHOLD
    ensures r.1 ==> r.0 == 0
    ensures !r.1 ==> r.0 == counter + 1
  {
    if counter >= SWEEP_THRESHOLD then (0, true) else (counter + 1, false)
  }

  /** The state the mod keeps between events: `banList` and `tickCounter`. */
  datatype Server = Server(bans: BanList, tickCounter: Int32)

  /** The state right after class initialisation: no bans, counter zero. */
  const INITIAL: Server := Server(map[], 0)

  /**
   * The events the mod registers for. `ServerStarted` carries the ban
   * file's contents, `None` when there is no ban file.
   */
  datatype Event =
    | ServerStarted(file: Option<seq<Byte>>)
    | ServerStopping
    | Death(entity: Entity)
    | Join(player: Option<Player>)
    | ServerTick

  /** The server state after an event, the disconnect message sent, and whether the ban file was saved. */
  datatype Transition = Transition(server: Server, kick: Option<string>, saved: bool)

  /** The reachable values of `tickCounter`. */
  predicate CounterInRange(s: Server) {
    0 <= s.tickCounter <= SWEEP_THRESHOLD
  }

  /** The effect of one event delivered at time `now`. */
  function Step(config: Config, s: Server, event: Event, now: Int64): (t: Transition)
    ensures CounterInRange(s) ==> CounterInRange(t.server)
    ensures !event.ServerTick? ==> t.server.tickCounter == s.tickCounter
    ensures t.saved ==> event.ServerStopping? || event.Death? || event.Join?
    ensures t.kick.Some? ==> event.Death? || event.Join?
    ensures event.ServerTick? || event.ServerStopping? ==>
      && t.server.bans.Keys <= s.bans.Keys
      && forall id :: id in t.server.bans ==> t.server.bans[id] == s.bans[id]
  {
    match event
    case ServerStarted(file) =>
      Transition(Server(Sweep(config, Load(s.bans, file), now), s.tickCounter), None, false)
    case ServerStopping =>
      Transition(s, None, true)
    case Death(entity) =>
      var o := OnDeath(config, s.bans, entity, now);
      Transition(Server(o.bans, s.tickCounter), o.kick, o.saved)
    case Join(player) =>
      var o := OnJoin(config, s.bans, player, now);
      Transition(Server(o.bans, s.tickCounter), o.kick, o.saved)
    case ServerTick =>
      var (counter, sweep) := Tick(s.tickCounter);
      Transition(Server(if sweep then Sweep(config, s.bans, now) else s.bans, counter), None, false)
  }

  /** The state after delivering `events` in order, each with its own time. */
  function Run(config: Config, s: Server, events: seq<(Event, Int64)>): (last: Server)
    decreases |events|
  {
    if |events| == 0 then s
    else Run(config, Step(config, s, events[0].0, events[0].1).server, events[1..])
  }

  /** The counter never leaves 0..1200 in any run from the initial state. */
  lemma {:induction false} RunKeepsCounterInRange(config: Config, s: Server, events: seq<(Event, Int64)>)
    requires CounterInRange(s)
    ensures CounterInRange(Run(config, s, events))
    decreases |events|
  {
    if |events| > 0 {
      RunKeepsCounterInRange(config, Step(config, s, events[0].0, events[0].1).server, events[1..]);
    }
  }

  /** Every event in `events` is a server tick. */
  predicate AllTicks(events: seq<(Event, Int64)>) {
    forall i :: 0 <= i < |events| ==> events[i].0.ServerTick?
  }

  /** Delivering one more event after a run is one more step. */
  lemma {:induction false} RunSnoc(config: Config, s: Server, events: seq<(Event, Int64)>, e: (Event, Int64))
    ensures Run(config, s, events + [e]) == Step(config, Run(config, s, events), e.0, e.1).server
    decreases |events|
  {
    if |events| > 0 {
      assert (events + [e])[1..] == events[1..] + [e];
      RunSnoc(config, Step(config, s, events[0].0, events[0].1).server, events[1..], e);
    }
  }

  /** After `k` ticks the counter has advanced by k modulo 1201 (it runs 0, 1, ..., 1200, 0, ...). */
  lemma {:induction false} RunTicksCounter(config: Config, s: Server, events: seq<(Event, Int64)>)
    requires CounterInRange(s)
    requires AllTicks(events)
    ensures Run(config, s, events).tickCounter == (s.tickCounter + |events|) % 1201
    decreases |events|
  {
    if |events| > 0 {
      assert events[0].0.ServerTick?;
      var s' := Step(config, s, events[0].0, events[0].1).server;
      assert s'.tickCounter == (s.tickCounter + 1) % 1201;
      var rest := events[1..];
      assert AllTicks(rest) by {
        forall i | 0 <= i < |rest| ensures rest[i].0.ServerTick? {
          assert rest[i] == events[i + 1];
        }
      }
      RunTicksCounter(config, s', rest);
    }
  }

  /**
   * From a zero counter, the k-th of a series of ticks sweeps the ban list
   * exactly when k is a multiple of 1201, and otherwise leaves it alone.
   */
  lemma SweepEvery1201Ticks(config: Config, bans: BanList, events: seq<(Event, Int64)>, k: nat)
    requires AllTicks(events)
    requires 1 <= k <= |events|
    ensures var before := Run(config, Server(bans, 0), events[..k - 1]);
      Run(config, Server(bans, 0), events[..k]).bans ==
        if k % 1201 == 0 then Sweep(config, before.bans, events[k - 1].1) else before.bans
  {
    var prefix := events[..k - 1];
    assert AllTicks(prefix) by {
      forall i | 0 <= i < |prefix| ensures prefix[i].0.ServerTick? {
        assert prefix[i] == events[i];
      }
    }
    RunTicksCounter(config, Server(bans, 0), prefix);
    assert events[..k] == prefix + [events[k - 1]];
    RunSnoc(config, Server(bans, 0), prefix, events[k - 1]);
  }

  /**
   * An exempt player's death or join changes neither the ban list nor the
   * counter, sends nothing and saves nothing, whatever the time.
   */
  lemma ExemptPlayerUntouched(config: Config, s: Server, player: Player, now: Int64)
    requires ShouldBypass(config, player)
    ensures Step(config, s, Death(PlayerEntity(player)), now) == Transition(s, None, false)
    ensures Step(config, s, Join(Some(player)), now) == Transition(s, None, false)
  {
  }

  /**
   * Dying again while banned restarts the ban: the entry holds the new
   * time, and the other entries are untouched.
   */
  lemma DeathRestartsBan(config: Config, s: Server, player: Player, now: Int64)
    requires !ShouldBypass(config, player)
    requires player.id in s.bans
    ensures var t := Step(config, s, Death(PlayerEntity(player)), now);
      && t.server.bans.Keys == s.bans.Keys
      && t.server.bans[player.id] == now
      && forall id :: id in s.bans && id != player.id ==> t.server.bans[id] == s.bans[id]
  {
  }

  /** Sweeping twice at the same time removes nothing the first sweep left. */
  lemma SweepIdempotent(config: Config, bans: BanList, now: Int64)
    ensures Sweep(config, Sweep(config, bans, now), now) == Sweep(config, bans, now)
  {
  }

  /**
   * The sweep and the join check agree on one entry when `(bannedAt + total) - now`
   * does not wrap: the sweep keeps the entry exactly when a join would be
   * refused, and drops it exactly when a join would lift the ban.
   */
  lemma SweepAgreesWithJoin(config: Config, bans: BanList, id: Uuid, now: Int64)
    requires id in bans
    requires InLong(Wrap64(bans[id] + TotalBanMillis(config)) - now)
    ensures id in Sweep(config, bans, now) <==> CheckBanStatus(config, bans, id, now).kick.Some?
    ensures id !in Sweep(config, bans, now) <==> id !in CheckBanStatus(config, bans, id, now).bans
  {
    ExpiryAgreement(bans[id], TotalBanMillis(config), now);
  }

  /**
   * A shutdown saves the ban list as it stands and changes nothing else; a
   * later start from the bytes it wrote, in any iteration order, holds
   * exactly the saved bans that have not expired by then, with the counter
   * kept.
   */
  lemma SavedFileReloads(config: Config, s: Server, now: Int64, order: seq<Uuid>, later: Int64)
    requires IsEnumeration(order, s.bans)
    requires |s.bans| <= INT_MAX
    ensures var stop := Step(config, s, ServerStopping, now);
      && stop.saved
      && stop.server == s
      && Load(stop.server.bans, Some(Encode(s.bans, order))) == s.bans
      && Step(config, stop.server, ServerStarted(Some(Encode(s.bans, order))), later).server
         == Server(Sweep(config, s.bans, later), s.tickCounter)
  {
    LoadSaved(s.bans, s.bans, order);
  }

  /** After the server starts, no loaded ban is already expired. */
  lemma StartLeavesNoExpiredBan(config: Config, s: Server, file: Option<seq<Byte>>, now: Int64)
    ensures var bans := Step(config, s, ServerStarted(file), now).server.bans;
      forall id :: id in bans ==> !SweepExpired(bans[id], TotalBanMillis(config), now)
    ensures file.None? ==> Step(config, s, ServerStarted(file), now).server.bans == Sweep(config, s.bans, now)
  {
  }
}
