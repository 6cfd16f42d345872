/** The firmware's holiday state (the global list `holidays` and the cached
    `closestHoliday`) and the three routines that update it in place:
    ingestion of a fetched year, the closest-holiday search, and the caching
    step of the main loop.  Clock readings and fetched years come in as
    parameters. */
module Holidei {
  import opened Wrappers
  import opened Dates
  import opened Catalog

  /** The catalogue at the point of the search in one tick: the current
      year's batch is ingested first if the catalogue is empty. */
  function Loaded(hs: seq<Holiday>, now: Tm, fetch: int -> Response): seq<Holiday>
  {
    if |hs| == 0 then Ingested(hs, fetch(now.year + 1900)) else hs
  }

  class State {
    /** The catalogue, in stored order (the `std::list`). */
    var holidays: seq<Holiday>
    /** The cached answer; a `date.year` of 0 means "not found yet". */
    var closestHoliday: Holiday
    /** Every record delivered by a successful fetch so far, in arrival order. */
    ghost var arrived: seq<Entry>

    /** The catalogue holds exactly the national records that arrived,
        newest first. */
    ghost predicate Valid()
      reads this
    {
      holidays == Reverse(National(arrived))
    }

    /** Power-on state: an empty catalogue and a zero-initialised cache. */
    constructor ()
      ensures Valid()
      ensures holidays == [] && closestHoliday == Unset && arrived == []
    {
      holidays := [];
      closestHoliday := Unset;
      arrived := [];
    }

    /** `updateHolidays`: every national record of an OK response is pushed
        onto the front of the catalogue; a failed fetch changes nothing. */
    method UpdateHolidays(r: Response)
      requires Valid()
      modifies this`holidays, this`arrived
      ensures Valid()
      ensures holidays == Ingested(old(holidays), r)
      ensures arrived == old(arrived) + Arrived(r)
    {
      if r.Ok? {
        var items := r.items;
        for i := 0 to |items|
          invariant holidays == Ingested(old(holidays), Ok(items[..i]))
          invariant arrived == old(arrived)
        {
          PushFrontStep(old(holidays), items, i);
          if !items[i].isNational {
            continue;
          }
          holidays := [AsHoliday(items[i])] + holidays;
        }
        assert items[..|items|] == items;
      }
      IngestedAccumulates(arrived, r);
      arrived := arrived + Arrived(r);
    }

    /** `updateClosestHoliday`: walk the catalogue in stored order and copy
        the first holiday that passes the test into the cache.  The result
        says whether one was found; when none is, the cache keeps its value. */
    method UpdateClosestHoliday(referenceDate: Tm) returns (found: bool)
      modifies this`closestHoliday
      ensures found == FirstQualifying(referenceDate, holidays).Some?
      ensures closestHoliday ==
              if found then FirstQualifying(referenceDate, holidays).value else old(closestHoliday)
    {
      found := false;
      for i := 0 to |holidays|
        invariant FirstQualifying(referenceDate, holidays[i..]) == FirstQualifying(referenceDate, holidays)
        invariant !found && closestHoliday == old(closestHoliday)
      {
        var holiday := holidays[i];
        assert holidays[i..][1..] == holidays[i + 1..];
        if referenceDate.mon > holiday.date.mon {
          continue;
        }
        if referenceDate.mday > holiday.date.mday {
          continue;
        }
        closestHoliday := Holiday(holiday.name, Tm(holiday.date.year, holiday.date.mon, holiday.date.mday));
        found := true;
        break;
      }
    }

    /** The caching step of one tick of the main loop.  `fetch(y)` is what the
        holiday service answers for year y.  Besides updating the state, it
        reports how many searches ran and which years were fetched. */
    method Tick(now: Tm, fetch: int -> Response) returns (searches: nat, requested: seq<int>)
      requires Valid()
      modifies this`holidays, this`arrived, this`closestHoliday
      ensures Valid()
      // an empty catalogue is loaded with the current year first
      ensures old(holidays) == [] ==> |requested| >= 1 && requested[0] == now.year + 1900
      // a set cache is left alone, and nothing is searched
      ensures old(closestHoliday.date.year) != 0 ==>
                searches == 0 && closestHoliday == old(closestHoliday) &&
                holidays == Loaded(old(holidays), now, fetch)
      // an unset cache: one search of the loaded catalogue ...
      ensures old(closestHoliday.date.year) == 0 &&
              FirstQualifying(now, Loaded(old(holidays), now, fetch)).Some? ==>
                searches == 1 && holidays == Loaded(old(holidays), now, fetch) &&
                closestHoliday == FirstQualifying(now, holidays).value
      // ... and, only when it fails, next year is ingested and searched once more
      ensures old(closestHoliday.date.year) == 0 &&
              FirstQualifying(now, Loaded(old(holidays), now, fetch)).None? ==>
                searches == 2 &&
                holidays == Ingested(Loaded(old(holidays), now, fetch), fetch(now.year + 1900 + 1)) &&
                closestHoliday == (if FirstQualifying(now, holidays).Some?
                                   then FirstQualifying(now, holidays).value else old(closestHoliday))
      ensures requested == (if old(holidays) == [] then [now.year + 1900] else []) +
                           (if searches == 2 then [now.year + 1900 + 1] else [])
      ensures arrived == old(arrived) +
                         (if old(holidays) == [] then Arrived(fetch(now.year + 1900)) else []) +
                         (if searches == 2 then Arrived(fetch(now.year + 1900 + 1)) else [])
      ensures searches <= 2
    {
      var currentYear := now.year + 1900;
      searches, requested := 0, [];
      if |holidays| == 0 {
        UpdateHolidays(fetch(currentYear));
        requested := requested + [currentYear];
      }
      if closestHoliday.date.year == 0 {
        var found := UpdateClosestHoliday(now);
        searches := 1;
        if !found {
          UpdateHolidays(fetch(currentYear + 1));
          requested := requested + [currentYear + 1];
          found := UpdateClosestHoliday(now);
          searches := 2;
        }
      }
    }
  }

  /** A holiday service that knows 2025 only, answering newest first. */
  function Service2025(year: int): Response
  {
    if year == 2025
    then Ok([Entry(Tm(125, 11, 25), "Christmas", true), Entry(Tm(125, 11, 24), "Eve", false),
             Entry(Tm(125, 10, 29), "X", true)])
    else Failed
  }

  /** Two ticks on 1 December 2025 from power-on, with a service that
      answers 2025 with Christmas, an optional observance and 29 November
      (newest first, as it does) and nothing for other years. */
  method PowerOnScenario()
  {
    var xmas := Entry(Tm(125, 11, 25), "Christmas", true);
    var optional := Entry(Tm(125, 11, 24), "Eve", false);
    var x := Entry(Tm(125, 10, 29), "X", true);
    var fetch := Service2025;
    var now := Tm(125, 11, 1);

    var items := [xmas, optional, x];
    assert fetch(2025) == Ok(items);
    assert National(items) == [AsHoliday(xmas), AsHoliday(x)] by {
      assert [xmas][..0] == [];
      assert National([xmas]) == [AsHoliday(xmas)];
      assert [xmas, optional][..1] == [xmas];
      assert National([xmas, optional]) == [AsHoliday(xmas)];
      assert items[..2] == [xmas, optional];
    }
    var stored := [AsHoliday(x), AsHoliday(xmas)];
    assert Reverse([AsHoliday(xmas), AsHoliday(x)]) == stored by {
      assert [AsHoliday(xmas)][..0] == [];
      assert Reverse([AsHoliday(xmas)]) == [AsHoliday(xmas)];
      assert [AsHoliday(xmas), AsHoliday(x)][..1] == [AsHoliday(xmas)];
    }
    assert FirstQualifying(now, stored) == Some(AsHoliday(xmas)) by {
      assert stored[1..] == [AsHoliday(xmas)];
    }
    assert Loaded([], now, fetch) == stored;

    var s := new State();
    var searches, requested := s.Tick(now, fetch);
    assert s.holidays == stored;
    assert s.closestHoliday == AsHoliday(xmas);
    assert searches == 1 && requested == [2025];

    searches, requested := s.Tick(Tm(125, 11, 26), fetch);
    assert searches == 0 && requested == [];
    assert s.closestHoliday == AsHoliday(xmas);
  }
}
