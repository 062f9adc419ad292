/**
 * The calendar handlers: every row of a table is read in order against one
 * cutoff captured before the loop; rows released before the cutoff are
 * skipped, every other row adds exactly one event, and the first row that
 * cannot be read aborts the whole build.
 */
module HtbCalendar {
  import opened Wrappers
  import opened Events

  /** The error that aborts a build: the index of the offending row and why. */
  datatype BuildError = BuildError(row: nat, reason: Reason)

  /**
   * The events the loop produces over `rows`, or the error of the first row
   * that cannot be read. Defined on the last row so that it follows the loop
   * one prefix at a time.
   */
  function BuildEvents(kind: Kind, rows: seq<Row>, now: int, parse: Parser, notices: map<string, string>)
    : Result<seq<Event>, BuildError>
    decreases |rows|
  {
    if rows == [] then Success([])
    else
      var last := |rows| - 1;
      match BuildEvents(kind, rows[..last], now, parse, notices)
      case Failure(e) => Failure(e)
      case Success(events) =>
        match RowStep(kind, rows[last], now, parse, notices)
        case Failure(reason) => Failure(BuildError(last, reason))
        case Success(None) => Success(events)
        case Success(Some(e)) => Success(events + [e])
  }

  /** The indices of the rows that produce an event. */
  function UpcomingRows(rows: seq<Row>, now: int, parse: Parser): set<nat>
  {
    set i: nat | i < |rows| && Upcoming(rows[i], now, parse)
  }

  /** Extending the rows by one adds that row's index exactly when it is upcoming. */
  lemma UpcomingRowsSnoc(rows: seq<Row>, now: int, parse: Parser)
    requires rows != []
    ensures var last := |rows| - 1;
      UpcomingRows(rows, now, parse) ==
        UpcomingRows(rows[..last], now, parse) + (if Upcoming(rows[last], now, parse) then {last} else {})
  {
  }

  /**
   * Once a prefix of the rows aborts, the whole build aborts with the same
   * error: the rows after it are never looked at.
   */
  lemma {:induction false} PrefixFailurePersists(kind: Kind, rows: seq<Row>, k: nat, now: int, parse: Parser, notices: map<string, string>)
    requires k <= |rows|
    requires BuildEvents(kind, rows[..k], now, parse, notices).Failure?
    ensures BuildEvents(kind, rows, now, parse, notices) == BuildEvents(kind, rows[..k], now, parse, notices)
    decreases |rows| - k
  {
    if k == |rows| {
      assert rows[..k] == rows;
    } else {
      var last := |rows| - 1;
      assert rows[..last][..k] == rows[..k];
      PrefixFailurePersists(kind, rows[..last], k, now, parse, notices);
    }
  }

  /**
   * The build fails exactly when some row cannot be read, wherever it is,
   * and the error names the first such row and its reason.
   */
  lemma {:induction false} BuildAbortsAtFirstMalformedRow(kind: Kind, rows: seq<Row>, now: int, parse: Parser, notices: map<string, string>)
    ensures var r := BuildEvents(kind, rows, now, parse, notices);
      && (r.Failure? <==> exists i :: 0 <= i < |rows| && !WellFormed(rows[i], parse))
      && (r.Failure? ==>
            && r.error.row < |rows|
            && !WellFormed(rows[r.error.row], parse)
            && r.error.reason == RowStep(kind, rows[r.error.row], now, parse, notices).error
            && forall j :: 0 <= j < r.error.row ==> WellFormed(rows[j], parse))
    decreases |rows|
  {
    if rows != [] {
      var last := |rows| - 1;
      var prefix := rows[..last];
      BuildAbortsAtFirstMalformedRow(kind, prefix, now, parse, notices);
      assert forall i :: 0 <= i < last ==> prefix[i] == rows[i];
    }
  }

  /** A successful build has one event per upcoming row. */
  lemma {:induction false} BuildCountsUpcoming(kind: Kind, rows: seq<Row>, now: int, parse: Parser, notices: map<string, string>, events: seq<Event>)
    requires BuildEvents(kind, rows, now, parse, notices) == Success(events)
    ensures |events| == |UpcomingRows(rows, now, parse)|
    decreases |rows|
  {
    if rows != [] {
      var last := |rows| - 1;
      var prefix := rows[..last];
      var r := BuildEvents(kind, prefix, now, parse, notices);
      assert r.Success?;
      BuildCountsUpcoming(kind, prefix, now, parse, notices, r.value);
      UpcomingRowsSnoc(rows, now, parse);
      assert last !in UpcomingRows(prefix, now, parse);
    }
  }

  /** Every row released at or after the cutoff has its event in a successful build. */
  lemma {:induction false} BuildKeepsUpcoming(kind: Kind, rows: seq<Row>, now: int, parse: Parser, notices: map<string, string>, events: seq<Event>)
    requires BuildEvents(kind, rows, now, parse, notices) == Success(events)
    ensures forall i :: 0 <= i < |rows| && Upcoming(rows[i], now, parse) ==>
      MakeEvent(kind, rows[i], Release(rows[i], parse), notices) in events
    decreases |rows|
  {
    if rows != [] {
      var last := |rows| - 1;
      var prefix := rows[..last];
      assert forall i :: 0 <= i < last ==> prefix[i] == rows[i];
      var r := BuildEvents(kind, prefix, now, parse, notices);
      assert r.Success?;
      BuildKeepsUpcoming(kind, prefix, now, parse, notices, r.value);
      var step := RowStep(kind, rows[last], now, parse, notices);
      assert step.Success?;
      assert forall e :: e in r.value ==> e in events;
      forall i | 0 <= i < |rows| && Upcoming(rows[i], now, parse)
        ensures MakeEvent(kind, rows[i], Release(rows[i], parse), notices) in events
      {
        if i == last {
          assert events == r.value + [MakeEvent(kind, rows[i], Release(rows[i], parse), notices)];
        } else {
          assert prefix[i] == rows[i];
        }
      }
    }
  }

  /** Every event of a successful build is the event of some upcoming row. */
  lemma {:induction false} BuildOnlyUpcoming(kind: Kind, rows: seq<Row>, now: int, parse: Parser, notices: map<string, string>, events: seq<Event>)
    requires BuildEvents(kind, rows, now, parse, notices) == Success(events)
    ensures forall e :: e in events ==>
      exists i :: 0 <= i < |rows| && Upcoming(rows[i], now, parse) &&
        e == MakeEvent(kind, rows[i], Release(rows[i], parse), notices)
    decreases |rows|
  {
    if rows != [] {
      var last := |rows| - 1;
      var prefix := rows[..last];
      assert forall i :: 0 <= i < last ==> prefix[i] == rows[i];
      var r := BuildEvents(kind, prefix, now, parse, notices);
      assert r.Success?;
      BuildOnlyUpcoming(kind, prefix, now, parse, notices, r.value);
    }
  }

  /**
   * The events of the upcoming rows, one per row and in row order: an
   * independent reference that walks the rows from the front.
   */
  function UpcomingEvents(kind: Kind, rows: seq<Row>, now: int, parse: Parser, notices: map<string, string>)
    : seq<Event>
    decreases |rows|
  {
    if rows == [] then []
    else
      (if Upcoming(rows[0], now, parse)
       then [MakeEvent(kind, rows[0], Release(rows[0], parse), notices)]
       else [])
      + UpcomingEvents(kind, rows[1..], now, parse, notices)
  }

  /** Appending a row to the input appends its event, if it has one, to the reference. */
  lemma {:induction false} UpcomingEventsSnoc(kind: Kind, rows: seq<Row>, now: int, parse: Parser, notices: map<string, string>)
    requires rows != []
    ensures var last := |rows| - 1;
      UpcomingEvents(kind, rows, now, parse, notices) ==
        UpcomingEvents(kind, rows[..last], now, parse, notices) +
        (if Upcoming(rows[last], now, parse)
         then [MakeEvent(kind, rows[last], Release(rows[last], parse), notices)]
         else [])
    decreases |rows|
  {
    var last := |rows| - 1;
    if last > 0 {
      UpcomingEventsSnoc(kind, rows[1..], now, parse, notices);
      assert rows[1..][..last - 1] == rows[..last][1..];
      assert rows[1..][last - 1] == rows[last];
      assert rows[..last][0] == rows[0];
    } else {
      assert rows[..last] == [];
      assert rows[1..] == [];
    }
  }

  /**
   * A successful build is exactly the upcoming rows' events, each row
   * contributing its own event once, in row order.
   */
  lemma {:induction false} BuildIsUpcomingEvents(kind: Kind, rows: seq<Row>, now: int, parse: Parser, notices: map<string, string>, events: seq<Event>)
    requires BuildEvents(kind, rows, now, parse, notices) == Success(events)
    ensures events == UpcomingEvents(kind, rows, now, parse, notices)
    decreases |rows|
  {
    if rows != [] {
      var last := |rows| - 1;
      var prefix := rows[..last];
      var r := BuildEvents(kind, prefix, now, parse, notices);
      assert r.Success?;
      BuildIsUpcomingEvents(kind, prefix, now, parse, notices, r.value);
      UpcomingEventsSnoc(kind, rows, now, parse, notices);
    }
  }

  /** No event of a successful build begins before the cutoff, and none carries an offset. */
  lemma NoEventBeforeCutoff(kind: Kind, rows: seq<Row>, now: int, parse: Parser, notices: map<string, string>, events: seq<Event>)
    requires BuildEvents(kind, rows, now, parse, notices) == Success(events)
    ensures forall e :: e in events ==> !e.begin.hasOffset && e.begin.ticks >= now
  {
    BuildOnlyUpcoming(kind, rows, now, parse, notices, events);
  }

  /** A row released before the cutoff contributes no event. */
  lemma PastRowHasNoEvent(kind: Kind, rows: seq<Row>, now: int, parse: Parser, notices: map<string, string>, events: seq<Event>, i: nat)
    requires BuildEvents(kind, rows, now, parse, notices) == Success(events)
    requires i < |rows| && WellFormed(rows[i], parse) && Release(rows[i], parse).ticks < now
    ensures forall e :: e in events ==> e.begin != Release(rows[i], parse)
  {
    NoEventBeforeCutoff(kind, rows, now, parse, notices, events);
  }

  /** The calendar the handler fills: events are added one at a time. */
  class Calendar {
    var events: seq<Event>

    constructor ()
      ensures events == []
    {
      events := [];
    }

    method Add(e: Event)
      modifies this
      ensures events == old(events) + [e]
    {
      events := events + [e];
    }
  }

  /**
   * The loop shared by both handlers: a fresh calendar, the cutoff `now`
   * read once before the loop, and one pass per row in order.
   */
  method GenerateCalendar(kind: Kind, rows: seq<Row>, now: int, parse: Parser, notices: map<string, string>)
    returns (r: Result<Calendar, BuildError>)
    ensures r.Success? ==> fresh(r.value) && BuildEvents(kind, rows, now, parse, notices) == Success(r.value.events)
    ensures r.Failure? ==> BuildEvents(kind, rows, now, parse, notices) == Failure(r.error)
  {
    var calendar := new Calendar();
    var i := 0;
    while i < |rows|
      invariant 0 <= i <= |rows|
      invariant fresh(calendar)
      invariant BuildEvents(kind, rows[..i], now, parse, notices) == Success(calendar.events)
    {
      var row := rows[i];
      assert rows[..i + 1][..i] == rows[..i];
      assert rows[..i + 1][i] == row;
      if |row| <= ReleaseColumn {
        assert BuildEvents(kind, rows[..i + 1], now, parse, notices) == Failure(BuildError(i, MissingColumn));
        PrefixFailurePersists(kind, rows, i + 1, now, parse, notices);
        return Failure(BuildError(i, MissingColumn));
      }
      var parsed := parse(row[ReleaseColumn]);
      if parsed.None? {
        assert BuildEvents(kind, rows[..i + 1], now, parse, notices) == Failure(BuildError(i, InvalidIsoDate));
        PrefixFailurePersists(kind, rows, i + 1, now, parse, notices);
        return Failure(BuildError(i, InvalidIsoDate));
      }
      var releaseDate := parsed.value;
      if releaseDate.hasOffset {
        assert BuildEvents(kind, rows[..i + 1], now, parse, notices) == Failure(BuildError(i, AwareNaiveComparison));
        PrefixFailurePersists(kind, rows, i + 1, now, parse, notices);
        return Failure(BuildError(i, AwareNaiveComparison));
      }
      if releaseDate.ticks < now {
        assert RowStep(kind, row, now, parse, notices) == Success(None);
        i := i + 1;
        continue;
      }
      var name := Title(kind, row[NameColumn]);
      var description := BaseDescription(kind, row);
      var notice := FetchNotice(notices, row[NameColumn]);
      if Truthy(notice) {
        description := description + NoticeSeparator + notice.value;
      }
      var event := Event(name, releaseDate, description);
      assert RowStep(kind, row, now, parse, notices) == Success(Some(event));
      calendar.Add(event);
      i := i + 1;
    }
    assert rows[..i] == rows;
    return Success(calendar);
  }

  /** The machines handler: the shared loop over the tracked machines. */
  method GenerateMachinesCalendar(rows: seq<Row>, now: int, parse: Parser, notices: map<string, string>)
    returns (r: Result<Calendar, BuildError>)
    ensures r.Success? ==> fresh(r.value) && BuildEvents(Machine, rows, now, parse, notices) == Success(r.value.events)
    ensures r.Failure? ==> BuildEvents(Machine, rows, now, parse, notices) == Failure(r.error)
  {
    r := GenerateCalendar(Machine, rows, now, parse, notices);
  }

  /** The challenges handler: the shared loop over the tracked challenges. */
  method GenerateChallengesCalendar(rows: seq<Row>, now: int, parse: Parser, notices: map<string, string>)
    returns (r: Result<Calendar, BuildError>)
    ensures r.Success? ==> fresh(r.value) && BuildEvents(Challenge, rows, now, parse, notices) == Success(r.value.events)
    ensures r.Failure? ==> BuildEvents(Challenge, rows, now, parse, notices) == Failure(r.error)
  {
    r := GenerateCalendar(Challenge, rows, now, parse, notices);
  }

  // The worked examples: one machine row "Lame", whose date text parses to `release`.

  const LameRow: Row := ["1", "Lame", "Linux", "Easy", "2030-01-01T00:00:00"]

  /** An upcoming machine without a notice gives one event with the bare description. */
  lemma UpcomingMachineScenario(now: int, parse: Parser, release: int)
    requires parse(LameRow[ReleaseColumn]) == Some(DateTime(release, false))
    requires now <= release
    ensures BuildEvents(Machine, [LameRow], now, parse, map[]) ==
      Success([Event("Machine: Lame", DateTime(release, false), "Difficulty: Easy, OS: Linux")])
  {
    assert [LameRow][..0] == [];
    assert Title(Machine, "Lame") == "Machine: Lame";
    assert BaseDescription(Machine, LameRow) == "Difficulty: Easy, OS: Linux";
    var e := Event("Machine: Lame", DateTime(release, false), "Difficulty: Easy, OS: Linux");
    assert MakeEvent(Machine, LameRow, DateTime(release, false), map[]) == e;
    assert RowStep(Machine, LameRow, now, parse, map[]) == Success(Some(e));
    assert BuildEvents(Machine, [], now, parse, map[]) == Success([]);
    assert [] + [e] == [e];
  }

  /** The same machine, dated in 2020 and so released before the cutoff. */
  const PastLameRow: Row := ["1", "Lame", "Linux", "Easy", "2020-01-01T00:00:00"]

  /** A machine released before the cutoff gives no event. */
  lemma PastMachineScenario(now: int, parse: Parser, release: int)
    requires parse(PastLameRow[ReleaseColumn]) == Some(DateTime(release, false))
    requires release < now
    ensures BuildEvents(Machine, [PastLameRow], now, parse, map[]) == Success([])
  {
  }

  /** A stored notice for the name is appended on a line of its own. */
  lemma NoticeMachineScenario(now: int, parse: Parser, release: int)
    requires parse(LameRow[ReleaseColumn]) == Some(DateTime(release, false))
    requires now <= release
    ensures BuildEvents(Machine, [LameRow], now, parse, map["Lame" := "Retired soon"]) ==
      Success([Event("Machine: Lame", DateTime(release, false),
                     "Difficulty: Easy, OS: Linux\nNotice: Retired soon")])
  {
    var notices := map["Lame" := "Retired soon"];
    var base := "Difficulty: Easy, OS: Linux";
    var full := "Difficulty: Easy, OS: Linux\nNotice: Retired soon";
    assert full == base + NoticeSeparator + "Retired soon";
    assert BaseDescription(Machine, LameRow) == base;
    assert FetchNotice(notices, "Lame") == Some("Retired soon");
    assert WithNotice(base, Some("Retired soon")) == full;
    var e := Event("Machine: Lame", DateTime(release, false), full);
    assert Title(Machine, "Lame") == "Machine: Lame";
    assert MakeEvent(Machine, LameRow, DateTime(release, false), notices) == e;
    assert RowStep(Machine, LameRow, now, parse, notices) == Success(Some(e));
    assert [LameRow][..0] == [];
    assert BuildEvents(Machine, [], now, parse, notices) == Success([]);
    assert [] + [e] == [e];
  }
}
