/**
 * One row of a tracked-items table turned into a calendar event: the
 * release date read from the row, the comparison with the cutoff, the
 * fixed title and description formats and the optional notice.
 */
module Events {
  import opened Wrappers

  /** One row of a table, each column as the text an f-string renders. */
  type Row = seq<string>

  /** The two tables a calendar is generated from. */
  datatype Kind = Machine | Challenge

  /**
   * A parsed release date. `ticks` orders dates; `hasOffset` is true when
   * the ISO text carried a UTC offset, which makes the date "aware".
   */
  datatype DateTime = DateTime(ticks: int, hasOffset: bool)

  /** The ISO-8601 date parser: `None` when the text is not a valid date. */
  type Parser = string -> Option<DateTime>

  /** An event as added to the calendar: its name (title), begin and description. */
  datatype Event = Event(name: string, begin: DateTime, description: string)

  /** Why one row stops the whole build. */
  datatype Reason =
    | MissingColumn        // the row has no release-date column (IndexError)
    | InvalidIsoDate       // the release date is not ISO-8601 (ValueError)
    | AwareNaiveComparison // an offset-carrying date compared with the naive "now" (TypeError)

  // Column positions; both tables keep the name in 1 and the release date in 4.
  const NameColumn: nat := 1
  const ReleaseColumn: nat := 4
  const MachineOsColumn: nat := 2
  const MachineDifficultyColumn: nat := 3
  const ChallengeDifficultyColumn: nat := 2
  const ChallengeCategoryColumn: nat := 3

  const NoticeSeparator: string := "\nNotice: "

  function TitlePrefix(kind: Kind): string
  {
    match kind
    case Machine => "Machine: "
    case Challenge => "Challenge: "
  }

  /** The event name: the kind's prefix followed by the item's name. */
  function Title(kind: Kind, name: string): (t: string)
    ensures |t| == |TitlePrefix(kind)| + |name|
    ensures t[..|TitlePrefix(kind)|] == TitlePrefix(kind)
    ensures t[|TitlePrefix(kind)|..] == name
  {
    TitlePrefix(kind) + name
  }

  /** The prefix tells the kinds apart, so a title determines kind and name. */
  lemma TitleInjective(k1: Kind, n1: string, k2: Kind, n2: string)
    requires Title(k1, n1) == Title(k2, n2)
    ensures k1 == k2 && n1 == n2
  {
    var t := Title(k1, n1);
    assert t[0] == TitlePrefix(k1)[0] && t[0] == TitlePrefix(k2)[0];
    assert k1 == k2;
    assert n1 == t[|TitlePrefix(k1)|..] == n2;
  }

  /**
   * The description before any notice: difficulty first, then the OS of a
   * machine or the category of a challenge.
   */
  function BaseDescription(kind: Kind, row: Row): (d: string)
    requires |row| > ReleaseColumn
    ensures kind == Machine ==>
      d == "Difficulty: " + row[MachineDifficultyColumn] + ", OS: " + row[MachineOsColumn]
    ensures kind == Challenge ==>
      d == "Difficulty: " + row[ChallengeDifficultyColumn] + ", Category: " + row[ChallengeCategoryColumn]
  {
    match kind
    case Machine =>
      "Difficulty: " + row[MachineDifficultyColumn] + ", OS: " + row[MachineOsColumn]
    case Challenge =>
      "Difficulty: " + row[ChallengeDifficultyColumn] + ", Category: " + row[ChallengeCategoryColumn]
  }

  /**
   * The notice stored for an event name: the stored text when the name has
   * one, `None` otherwise.
   */
  function FetchNotice(notices: map<string, string>, eventName: string): (r: Option<string>)
    ensures r.Some? <==> eventName in notices
    ensures r.Some? ==> r.value == notices[eventName]
  {
    if eventName in notices then Some(notices[eventName]) else None
  }

  /** Python truthiness of the lookup: present and not the empty string. */
  predicate Truthy(notice: Option<string>)
  {
    notice.Some? && notice.value != ""
  }

  /**
   * The base description, extended by the separator and the notice exactly
   * when the notice is truthy.
   */
  function WithNotice(base: string, notice: Option<string>): (d: string)
    ensures |base| <= |d| && d[..|base|] == base
    ensures d == base <==> !Truthy(notice)
    ensures Truthy(notice) ==> d[|base|..] == NoticeSeparator + notice.value
  {
    if Truthy(notice) then base + NoticeSeparator + notice.value else base
  }

  /** The event built for a row that is kept, with its parsed release date. */
  function MakeEvent(kind: Kind, row: Row, release: DateTime, notices: map<string, string>): (e: Event)
    requires |row| > ReleaseColumn
    ensures e.name == Title(kind, row[NameColumn])
    ensures e.begin == release
    ensures var base := BaseDescription(kind, row);
      var notice := FetchNotice(notices, row[NameColumn]);
      && |base| <= |e.description| && e.description[..|base|] == base
      && (Truthy(notice) <==> |e.description| > |base|)
      && (Truthy(notice) ==> e.description[|base|..] == NoticeSeparator + notice.value)
  {
    Event(Title(kind, row[NameColumn]),
          release,
          WithNotice(BaseDescription(kind, row), FetchNotice(notices, row[NameColumn])))
  }

  /** A row the build can process: it has a release date that parses and carries no offset. */
  predicate WellFormed(row: Row, parse: Parser)
  {
    && |row| > ReleaseColumn
    && parse(row[ReleaseColumn]).Some?
    && !parse(row[ReleaseColumn]).value.hasOffset
  }

  /** The parsed release date of a well-formed row. */
  function Release(row: Row, parse: Parser): DateTime
    requires WellFormed(row, parse)
  {
    parse(row[ReleaseColumn]).value
  }

  /** A well-formed row whose release is not strictly before the cutoff. */
  predicate Upcoming(row: Row, now: int, parse: Parser)
  {
    WellFormed(row, parse) && Release(row, parse).ticks >= now
  }

  /**
   * One pass of the loop body: read and parse the release date, compare it
   * with the cutoff, and either skip the row (`None`) or build its event.
   */
  function RowStep(kind: Kind, row: Row, now: int, parse: Parser, notices: map<string, string>)
    : (r: Result<Option<Event>, Reason>)
    ensures r.Failure? <==> !WellFormed(row, parse)
    ensures r.Failure? ==>
      r.error == (if |row| <= ReleaseColumn then MissingColumn
                  else if parse(row[ReleaseColumn]).None? then InvalidIsoDate
                  else AwareNaiveComparison)
    ensures r == Success(None) <==> WellFormed(row, parse) && !Upcoming(row, now, parse)
    ensures r.Success? && r.value.Some? <==> Upcoming(row, now, parse)
    ensures Upcoming(row, now, parse) ==>
      r == Success(Some(MakeEvent(kind, row, Release(row, parse), notices)))
  {
    if |row| <= ReleaseColumn then Failure(MissingColumn)
    else
      match parse(row[ReleaseColumn])
      case None => Failure(InvalidIsoDate)
      case Some(release) =>
        if release.hasOffset then Failure(AwareNaiveComparison)
        else if release.ticks < now then Success(None)
        else Success(Some(MakeEvent(kind, row, release, notices)))
  }
}
