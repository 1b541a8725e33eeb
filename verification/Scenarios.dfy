/**
 * Whole-system runs with concrete values: the default one-day ban seen
 * from a banned player's side, an exempt operator, and a sweep that
 * finds one of two bans expired.
 */
module Scenarios {
  import opened Wrappers
  import opened Decimal
  import opened BanPolicy
  import opened BanStore
  import opened DeathBan

  const ALICE: Player := Player(Uuid(1, 2), false)
  const BOB: Player := Player(Uuid(3, 4), false)
  const ONE_DAY: int := 86_400_000

  /** The default configuration bans for one day, shown as 24 hours 0 minutes. */
  lemma DefaultBanIsOneDay()
    ensures TotalBanMillis(DEFAULT_CONFIG) == ONE_DAY
    ensures FormatTime(ONE_DAY) == "24 hours 0 minutes"
  {
    assert ONE_DAY / 3_600_000 == 24;
    assert ONE_DAY / 60_000 % 60 == 0;
    assert IntToString(24) == "24" by {
      assert NatToString(24) == NatToString(2) + [DigitChar(4)];
    }
    assert IntToString(0) == "0";
  }

  /**
   * With the default configuration a player who dies at time 0 is banned
   * from then on and told to come back in 24 hours.
   */
  lemma DeathStartsOneDayBan()
    ensures var died := Step(DEFAULT_CONFIG, INITIAL, Death(PlayerEntity(ALICE)), 0);
      && died.server.bans == map[ALICE.id := 0]
      && died.kick == Some(KICK_PREFIX + "24 hours 0 minutes")
      && died.saved
  {
    DefaultBanIsOneDay();
  }

  /** A second after dying at time 0 the player is refused with 23 hours 59 minutes to go. */
  lemma JoinRefusedASecondLater()
    ensures var refused := Step(DEFAULT_CONFIG, Server(map[ALICE.id := 0], 0), Join(Some(ALICE)), 1000);
      && refused.server.bans == map[ALICE.id := 0]
      && refused.kick == Some(KICK_PREFIX + "23 hours 59 minutes")
      && !refused.saved
  {
    DefaultBanIsOneDay();
    FormatTimeAlmostADay();
    assert Remaining(0, ONE_DAY, 1000) == 86_399_000;
  }

  /** A full day after dying at time 0 the player is let in, the ban lifted and the file saved. */
  lemma JoinAdmittedADayLater()
    ensures var admitted := Step(DEFAULT_CONFIG, Server(map[ALICE.id := 0], 0), Join(Some(ALICE)), ONE_DAY);
      && admitted.server.bans == map[]
      && admitted.kick.None?
      && admitted.saved
  {
    DefaultBanIsOneDay();
    assert Remaining(0, ONE_DAY, ONE_DAY) == 0;
    assert map[ALICE.id := 0] - {ALICE.id} == map[];
  }

  /** An operator who dies while operators are excluded is neither banned nor disconnected. */
  lemma OperatorDeathIgnored(now: JavaInt.Int64)
    ensures Step(DEFAULT_CONFIG, INITIAL, Death(PlayerEntity(Player(Uuid(5, 6), true))), now)
         == Transition(INITIAL, None, false)
  {
  }

  /**
   * Two bans, one a day old and one younger: the sweep a day after the first
   * keeps exactly the younger one, and does not save the file.
   */
  lemma SweepKeepsUnexpired()
    ensures var s := Server(map[ALICE.id := 0, BOB.id := 50_000_000], 1200);
      var t := Step(DEFAULT_CONFIG, s, ServerTick, ONE_DAY);
      && t.server == Server(map[BOB.id := 50_000_000], 0)
      && !t.saved
  {
    DefaultBanIsOneDay();
    var bans := map[ALICE.id := 0, BOB.id := 50_000_000];
    assert !SweepExpired(50_000_000, ONE_DAY, ONE_DAY);
    assert SweepExpired(0, ONE_DAY, ONE_DAY);
    assert Sweep(DEFAULT_CONFIG, bans, ONE_DAY) == map[BOB.id := 50_000_000];
  }
}
