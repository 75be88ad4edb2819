/**
 * The data gathering behind the safety-meeting attendance report: which
 * attendees are listed, how they are counted, what each table row and each
 * meeting-detail field shows. The HTML around these values (styles,
 * headings, footer) is fixed text and is not modelled.
 */
module PdfReport {
  import opened Wrappers
  import opened Seqs
  import opened JsText

  /** One roster slot. `signature` and `absentReason` are optional fields. */
  datatype Attendee = Attendee(
    id: string,
    name: string,
    isPresent: bool,
    signature: Option<string>,
    absentReason: Option<string>,
    date: string)

  /** The meeting metadata as entered on the main screen. */
  datatype MeetingInfo = MeetingInfo(
    date: string,
    location: string,
    facilitator: string,
    topic: string,
    expectedCount: int)

  /** The CSS class of a row's status cell. */
  datatype StatusClass = SignedCell | UnsignedCell | AbsentCell

  /** One line of the attendance table: the text of its four cells. */
  datatype Row = Row(
    absentRow: bool,        // the row carries class "absent-row"
    number: nat,            // the "#" cell
    name: string,
    statusClass: StatusClass,
    status: string,         // the text of the status cell
    date: string)

  /** The four figures of the summary block. */
  datatype Summary = Summary(expected: int, signed: int, presentUnsigned: int, absent: int)

  /** The values interpolated into the report document. */
  datatype Report = Report(
    generatedOn: string,    // the formatted clock reading, supplied by the caller
    meetingDate: string,    // the formatted meeting date, supplied by the caller
    location: string,
    facilitator: string,
    topic: string,
    summary: Summary,
    rows: seq<Row>)

  const SignedText: string := "✓ Signed"
  const NotSignedText: string := "⚠ Not Signed"
  const AbsentPrefix: string := "Absent: "
  const NotSpecified: string := "Not specified"
  const DefaultTopic: string := "General Safety Training"

  /** `a.name.trim()` is truthy. */
  predicate IsFilled(a: Attendee) {
    Trim(a.name) != ""
  }

  predicate IsPresent(a: Attendee) {
    a.isPresent
  }

  predicate IsAbsent(a: Attendee) {
    !a.isPresent
  }

  /** `a.signature` is truthy. */
  predicate IsSigned(a: Attendee) {
    Truthy(a.signature)
  }

  predicate IsFilledAndPresent(a: Attendee) {
    IsFilled(a) && a.isPresent
  }

  predicate IsFilledAndAbsent(a: Attendee) {
    IsFilled(a) && !a.isPresent
  }

  /** `attendees.filter(a => a.name.trim())`: the roster slots that are listed. */
  function FilledAttendees(attendees: seq<Attendee>): (r: seq<Attendee>)
    ensures |r| <= |attendees|
    ensures forall i :: 0 <= i < |r| ==> IsFilled(r[i])
  {
    Filter(IsFilled, attendees)
  }

  /** `filledAttendees.filter(a => a.isPresent)`. */
  function PresentAttendees(filled: seq<Attendee>): (r: seq<Attendee>)
    ensures |r| <= |filled|
    ensures forall i :: 0 <= i < |r| ==> r[i].isPresent
  {
    Filter(IsPresent, filled)
  }

  /** `filledAttendees.filter(a => !a.isPresent)`. */
  function AbsentAttendees(filled: seq<Attendee>): (r: seq<Attendee>)
    ensures |r| <= |filled|
    ensures forall i :: 0 <= i < |r| ==> !r[i].isPresent
  {
    Filter(IsAbsent, filled)
  }

  function SignedCount(present: seq<Attendee>): (n: nat)
    ensures n <= |present|
  {
    |Filter(IsSigned, present)|
  }

  /**
   * The text of the status cell of attendee `a`'s row: it starts with the
   * absent prefix exactly for an absent attendee, and is one of the two
   * signature statuses for a present one.
   */
  function StatusText(a: Attendee): (r: string)
    ensures AbsentPrefix <= r <==> !a.isPresent
    ensures a.isPresent ==> r == SignedText || r == NotSignedText
  {
    assert SignedText[0] != AbsentPrefix[0] && NotSignedText[0] != AbsentPrefix[0];
    if a.isPresent then
      (if IsSigned(a) then SignedText else NotSignedText)
    else
      AbsentPrefix + OrOption(a.absentReason, NotSpecified)
  }

  /** The status cell's class: absent exactly for absent attendees, signed exactly for signed present ones. */
  function StatusClassOf(a: Attendee): (r: StatusClass)
    ensures r == AbsentCell <==> !a.isPresent
    ensures r == SignedCell <==> a.isPresent && IsSigned(a)
  {
    if !a.isPresent then AbsentCell
    else if IsSigned(a) then SignedCell
    else UnsignedCell
  }

  /**
   * The row the table shows for `a` at position `index` of the filled list:
   * numbered from 1, showing `a`'s name and date, and with the row flag,
   * the cell class and the status text agreeing on whether `a` is absent.
   */
  function BuildRow(a: Attendee, index: nat): (r: Row)
    ensures r.number == index + 1 && r.name == a.name && r.date == a.date
    ensures r.absentRow <==> !a.isPresent
    ensures r.absentRow <==> r.statusClass == AbsentCell
    ensures r.absentRow <==> AbsentPrefix <= r.status
  {
    Row(!a.isPresent, index + 1, a.name, StatusClassOf(a), StatusText(a), a.date)
  }

  /** `filledAttendees.map((attendee, index) => ...)`. */
  function AttendeeRows(filled: seq<Attendee>): (rows: seq<Row>)
    ensures |rows| == |filled|
  {
    seq(|filled|, k requires 0 <= k < |filled| => BuildRow(filled[k], k))
  }

  function SummaryOf(info: MeetingInfo, attendees: seq<Attendee>): (s: Summary)
    ensures s.expected == info.expectedCount
    ensures 0 <= s.signed && 0 <= s.presentUnsigned && 0 <= s.absent
    ensures s.signed + s.presentUnsigned + s.absent == |FilledAttendees(attendees)|
  {
    var filled := FilledAttendees(attendees);
    var present := PresentAttendees(filled);
    var absent := AbsentAttendees(filled);
    FilterPartition(IsPresent, IsAbsent, filled);
    Summary(info.expectedCount, SignedCount(present), |present| - SignedCount(present), |absent|)
  }

  /**
   * The report `generateSafetyMeetingPDF` renders, before it is handed to
   * the printing service. The two formatted dates depend on the clock and
   * the locale and are inputs here. The table has exactly as many rows as
   * the signed, unsigned and absent figures add up to.
   */
  function RenderReport(info: MeetingInfo, attendees: seq<Attendee>, generatedOn: string, meetingDate: string): (r: Report)
    ensures r.rows == AttendeeRows(FilledAttendees(attendees)) && r.summary == SummaryOf(info, attendees)
    ensures |r.rows| == r.summary.signed + r.summary.presentUnsigned + r.summary.absent
    ensures r.summary.expected == info.expectedCount
    ensures r.location != "" && r.facilitator != "" && r.topic != ""
  {
    Report(
      generatedOn,
      meetingDate,
      Or(info.location, NotSpecified),
      Or(info.facilitator, NotSpecified),
      Or(info.topic, DefaultTopic),
      SummaryOf(info, attendees),
      AttendeeRows(FilledAttendees(attendees)))
  }

  // ---------------------------------------------------------------------
  // Properties of the gathered data

  /** A single roster slot is listed exactly when its name is not blank. */
  lemma FilledSingleton(a: Attendee)
    ensures FilledAttendees([a]) == if IsBlank(a.name) then [] else [a]
  {
    TrimEmptyIffBlank(a.name);
    FilterSingleton(IsFilled, a);
  }

  /** Listing a roster made of two parts lists each part in turn, so roster order is kept. */
  lemma FilledAppend(r1: seq<Attendee>, r2: seq<Attendee>)
    ensures FilledAttendees(r1 + r2) == FilledAttendees(r1) + FilledAttendees(r2)
  {
    FilterAppend(IsFilled, r1, r2);
  }

  /** The listed attendees are exactly the roster slots whose name is not blank. */
  lemma FilledMembers(roster: seq<Attendee>)
    ensures forall b :: b in FilledAttendees(roster) <==> b in roster && !IsBlank(b.name)
  {
    FilterMembers(IsFilled, roster);
    forall b | b in roster ensures IsFilled(b) <==> !IsBlank(b.name) {
      TrimEmptyIffBlank(b.name);
    }
  }

  /**
   * Present and absent attendees partition the filled list: no attendee is
   * in both, the lengths add up, every filled attendee is in one of them,
   * and each is the roster filtered by "filled and present" (resp. absent),
   * so each keeps roster order.
   */
  lemma PresentAbsentPartition(attendees: seq<Attendee>)
    ensures forall a :: a in PresentAttendees(FilledAttendees(attendees)) ==>
      a !in AbsentAttendees(FilledAttendees(attendees))
    ensures |PresentAttendees(FilledAttendees(attendees))| + |AbsentAttendees(FilledAttendees(attendees))|
      == |FilledAttendees(attendees)|
    ensures multiset(PresentAttendees(FilledAttendees(attendees))) + multiset(AbsentAttendees(FilledAttendees(attendees)))
      == multiset(FilledAttendees(attendees))
    ensures PresentAttendees(FilledAttendees(attendees)) == Filter(IsFilledAndPresent, attendees)
    ensures AbsentAttendees(FilledAttendees(attendees)) == Filter(IsFilledAndAbsent, attendees)
  {
    var filled := FilledAttendees(attendees);
    FilterPartition(IsPresent, IsAbsent, filled);
    FilterFilter(IsFilled, IsPresent, IsFilledAndPresent, attendees);
    FilterFilter(IsFilled, IsAbsent, IsFilledAndAbsent, attendees);
  }

  /**
   * The signed figure counts the present attendees with a truthy signature;
   * it never exceeds the present count, so "Present (Unsigned)" is never
   * negative. "Expected" is the metadata value whatever the roster, and
   * "Absent" is the length of the absent list.
   */
  lemma SummaryFigures(info: MeetingInfo, attendees: seq<Attendee>, other: seq<Attendee>)
    ensures SummaryOf(info, attendees).signed == |Filter(IsSigned, PresentAttendees(FilledAttendees(attendees)))|
    ensures SummaryOf(info, attendees).signed <= |PresentAttendees(FilledAttendees(attendees))|
    ensures SummaryOf(info, attendees).presentUnsigned
      == |PresentAttendees(FilledAttendees(attendees))| - SummaryOf(info, attendees).signed >= 0
    ensures SummaryOf(info, attendees).absent == |AbsentAttendees(FilledAttendees(attendees))|
    ensures SummaryOf(info, attendees).expected == SummaryOf(info, other).expected == info.expectedCount
  {
  }

  /**
   * The table has one row per filled attendee, in filled-list order: row k
   * is numbered k + 1 and shows the name and date of the k-th filled
   * attendee, whatever its presence flag. No row belongs to a blank slot.
   */
  lemma RowsFollowFilledList(attendees: seq<Attendee>)
    ensures |AttendeeRows(FilledAttendees(attendees))| == |FilledAttendees(attendees)|
    ensures forall k :: 0 <= k < |FilledAttendees(attendees)| ==>
      var a := FilledAttendees(attendees)[k];
      var row := AttendeeRows(FilledAttendees(attendees))[k];
      && row == BuildRow(a, k)
      && row.number == k + 1
      && row.name == a.name && row.date == a.date
      && row.absentRow == !a.isPresent
      && row.status == StatusText(a)
      && row.statusClass == StatusClassOf(a)
      && !IsBlank(row.name)
  {
    var filled := FilledAttendees(attendees);
    forall k | 0 <= k < |filled| ensures !IsBlank(filled[k].name) {
      TrimEmptyIffBlank(filled[k].name);
    }
  }

  /**
   * A present attendee's status is "✓ Signed" exactly when the signature is
   * truthy and "⚠ Not Signed" exactly when it is not; it never starts with
   * the absent prefix.
   */
  lemma PresentRowStatus(a: Attendee, index: nat)
    requires a.isPresent
    ensures BuildRow(a, index).status == SignedText <==> IsSigned(a)
    ensures BuildRow(a, index).status == NotSignedText <==> !IsSigned(a)
    ensures BuildRow(a, index).statusClass == (if IsSigned(a) then SignedCell else UnsignedCell)
    ensures !BuildRow(a, index).absentRow
    ensures !(AbsentPrefix <= BuildRow(a, index).status)
  {
    assert SignedText[0] != AbsentPrefix[0];
    assert NotSignedText[0] != AbsentPrefix[0];
  }

  /**
   * An absent attendee's status is the absent prefix followed by the reason,
   * or by "Not specified" when the reason is missing or empty; it is never
   * one of the two signature statuses.
   */
  lemma AbsentRowStatus(a: Attendee, index: nat)
    requires !a.isPresent
    ensures Truthy(a.absentReason) ==> BuildRow(a, index).status == AbsentPrefix + a.absentReason.value
    ensures !Truthy(a.absentReason) ==> BuildRow(a, index).status == "Absent: Not specified"
    ensures BuildRow(a, index).statusClass == AbsentCell && BuildRow(a, index).absentRow
    ensures BuildRow(a, index).status != SignedText && BuildRow(a, index).status != NotSignedText
  {
    var s := BuildRow(a, index).status;
    assert s[0] == 'A';
  }

  /**
   * The meeting details fall back to fixed texts when empty and show the
   * entered value unchanged otherwise; the displayed value is never empty.
   */
  lemma MetadataFallbacks(info: MeetingInfo, attendees: seq<Attendee>, generatedOn: string, meetingDate: string)
    ensures var r := RenderReport(info, attendees, generatedOn, meetingDate);
      && (r.location == if info.location == "" then "Not specified" else info.location)
      && (r.facilitator == if info.facilitator == "" then "Not specified" else info.facilitator)
      && (r.topic == if info.topic == "" then "General Safety Training" else info.topic)
      && r.location != "" && r.facilitator != "" && r.topic != ""
      && r.meetingDate == meetingDate && r.generatedOn == generatedOn
  {
  }

  /**
   * A signed present attendee, an absent one with reason "Sick", a blank
   * slot and an unsigned present attendee, in that roster order: three
   * rows in roster order with the absent row in the middle, and summary
   * figures expected / 1 / 1 / 1.
   */
  lemma ExampleMeeting(info: MeetingInfo, alice: Attendee, carol: Attendee, blank: Attendee, bob: Attendee)
    requires IsFilled(alice) && alice.isPresent && IsSigned(alice)
    requires IsFilled(carol) && !carol.isPresent && carol.absentReason == Some("Sick")
    requires IsBlank(blank.name)
    requires IsFilled(bob) && bob.isPresent && bob.signature == None
    ensures var r := RenderReport(info, [alice, carol, blank, bob], "now", "today");
      && r.summary == Summary(info.expectedCount, 1, 1, 1)
      && |r.rows| == 3
      && r.rows[0].number == 1 && r.rows[0].name == alice.name && r.rows[0].status == SignedText
      && r.rows[1].number == 2 && r.rows[1].name == carol.name && r.rows[1].status == "Absent: Sick"
      && r.rows[2].number == 3 && r.rows[2].name == bob.name && r.rows[2].status == NotSignedText
  {
    ExampleFilled(alice, carol, blank, bob);
    ExamplePartition(alice, carol, bob);
  }

  lemma ExampleFilled(alice: Attendee, carol: Attendee, blank: Attendee, bob: Attendee)
    requires IsFilled(alice) && IsFilled(carol) && IsBlank(blank.name) && IsFilled(bob)
    ensures FilledAttendees([alice, carol, blank, bob]) == [alice, carol, bob]
  {
    assert !IsFilled(blank) by {
      TrimEmptyIffBlank(blank.name);
    }
    assert [bob][1..] == [];
    assert Filter(IsFilled, [bob]) == [bob];
    assert [blank, bob][1..] == [bob];
    assert Filter(IsFilled, [blank, bob]) == [bob];
    assert [carol, blank, bob][1..] == [blank, bob];
    assert Filter(IsFilled, [carol, blank, bob]) == [carol] + [bob];
    assert [alice, carol, blank, bob][1..] == [carol, blank, bob];
    assert Filter(IsFilled, [alice, carol, blank, bob]) == [alice] + [carol, bob];
  }

  lemma ExamplePartition(alice: Attendee, carol: Attendee, bob: Attendee)
    requires alice.isPresent && IsSigned(alice) && !carol.isPresent && bob.isPresent && !IsSigned(bob)
    ensures PresentAttendees([alice, carol, bob]) == [alice, bob]
    ensures AbsentAttendees([alice, carol, bob]) == [carol]
    ensures SignedCount([alice, bob]) == 1
  {
    assert [bob][1..] == [];
    assert [carol, bob][1..] == [bob];
    assert [alice, carol, bob][1..] == [carol, bob];
    assert [alice, bob][1..] == [bob];
    assert Filter(IsPresent, [bob]) == [bob];
    assert Filter(IsPresent, [carol, bob]) == [bob];
    assert Filter(IsPresent, [alice, carol, bob]) == [alice] + [bob];
    assert Filter(IsAbsent, [bob]) == [];
    assert Filter(IsAbsent, [carol, bob]) == [carol];
    assert Filter(IsAbsent, [alice, carol, bob]) == [carol];
    assert Filter(IsSigned, [bob]) == [];
    assert Filter(IsSigned, [alice, bob]) == [alice];
  }
}
