/**
 * The page a shared link opens (src/pages/ViewCheck.tsx): what `fetchCheck`
 * decides for an id and the document read for it, the remaining-time text,
 * the heading shown for each error, and the text the copy button copies.
 */
module ViewCheck {
  import opened Wrappers
  import opened Text
  import opened Tokenize
  import opened Records
  import opened Annotation
  import opened Expiring

  const MinuteMs: int := 60 * 1000

  // ---------------------------------------------------------------------
  // Remaining time
  // ---------------------------------------------------------------------

  /** The three shapes of the remaining-time text. */
  datatype Remaining = DaysHours(days: nat, hours: nat) | HoursOnly(hours: nat) | MinutesOnly(minutes: nat)

  /** Whole days and leftover whole hours, both rounded down. */
  lemma DayParts(ms: nat)
    ensures var days, hours := ms / DayMs, (ms % DayMs) / HourMs;
      && hours <= 23
      && days * DayMs + hours * HourMs <= ms < days * DayMs + (hours + 1) * HourMs
      && (days > 0 <==> ms >= DayMs)
      && (days == 0 ==> (hours > 0 <==> ms >= HourMs))
  {
  }

  /** Whole minutes below an hour, rounded down. */
  lemma MinuteParts(ms: nat)
    requires ms < HourMs
    ensures var minutes := (ms % HourMs) / MinuteMs;
      minutes <= 59 && minutes * MinuteMs <= ms < (minutes + 1) * MinuteMs
  {
  }

  /**
   * Whole days and the hours left over when at least a day remains; whole
   * hours when at least an hour remains; whole minutes otherwise. Each
   * figure is the remaining time rounded down to its unit.
   */
  function RemainingOf(ms: nat): (r: Remaining)
    ensures r.DaysHours? <==> ms >= DayMs
    ensures r.HoursOnly? <==> HourMs <= ms < DayMs
    ensures r.MinutesOnly? <==> ms < HourMs
    ensures r.DaysHours? ==> r.hours <= 23
    ensures r.DaysHours? ==> r.days * DayMs + r.hours * HourMs <= ms < r.days * DayMs + (r.hours + 1) * HourMs
    ensures r.HoursOnly? ==> 1 <= r.hours <= 23 && r.hours * HourMs <= ms < (r.hours + 1) * HourMs
    ensures r.MinutesOnly? ==> r.minutes <= 59 && r.minutes * MinuteMs <= ms < (r.minutes + 1) * MinuteMs
  {
    var days := ms / DayMs;
    var hours := (ms % DayMs) / HourMs;
    DayParts(ms);
    if days > 0 then DaysHours(days, hours)
    else if hours > 0 then HoursOnly(hours)
    else
      MinuteParts(ms);
      MinutesOnly((ms % HourMs) / MinuteMs)
  }

  /** The template strings: `${days} days ${hours} hours`, `${hours} hours`, `${minutes} minutes`. */
  function ShowRemaining(r: Remaining): string
  {
    match r
    case DaysHours(d, h) => NatToString(d) + " days " + NatToString(h) + " hours"
    case HoursOnly(h) => NatToString(h) + " hours"
    case MinutesOnly(m) => NatToString(m) + " minutes"
  }

  /** The remaining-time text for `ms` milliseconds left (`remainingMs` is never negative here). */
  function RemainingTime(ms: nat): string
  {
    ShowRemaining(RemainingOf(ms))
  }

  predicate IsNumeral(w: string)
  {
    w != [] && forall i :: 0 <= i < |w| ==> IsDigit(w[i])
  }

  /** Reads a remaining-time text back into its figures. */
  function ReadRemaining(text: string): Option<Remaining>
  {
    var w := SplitOn(text, ' ');
    if |w| == 4 && IsNumeral(w[0]) && w[1] == "days" && IsNumeral(w[2]) && w[3] == "hours" then
      Some(DaysHours(ParseNat(w[0]), ParseNat(w[2])))
    else if |w| == 2 && IsNumeral(w[0]) && w[1] == "hours" then Some(HoursOnly(ParseNat(w[0])))
    else if |w| == 2 && IsNumeral(w[0]) && w[1] == "minutes" then Some(MinutesOnly(ParseNat(w[0])))
    else None
  }

  lemma NumeralHasNoSpace(n: nat)
    ensures IsNumeral(NatToString(n)) && ' ' !in NatToString(n)
  {
  }

  /** Splitting `a unit` on the space gives the numeral and the unit. */
  lemma SplitNumberUnit(n: nat, unit: string)
    requires ' ' !in unit
    ensures SplitOn(NatToString(n) + " " + unit, ' ') == [NatToString(n), unit]
  {
    NumeralHasNoSpace(n);
    assert NatToString(n) + " " + unit == NatToString(n) + [' '] + unit;
    SplitOnAfterFree(NatToString(n), ' ', unit);
    SplitOnFree(unit, ' ');
  }

  lemma JoinFour(w: string, x: string, y: string, z: string)
    ensures Join([w, x, y, z], " ") == w + " " + x + " " + y + " " + z
  {
    assert [w, x, y, z][1..] == [x, y, z];
    assert [x, y, z][1..] == [y, z];
    assert [y, z][1..] == [z];
    assert Join([z], " ") == z;
    assert Join([y, z], " ") == y + " " + z;
    assert Join([x, y, z], " ") == x + " " + (y + " " + z);
  }

  lemma ReadDaysHours(d: nat, h: nat)
    ensures ReadRemaining(ShowRemaining(DaysHours(d, h))) == Some(DaysHours(d, h))
  {
    var a, b := NatToString(d), NatToString(h);
    NumeralHasNoSpace(d);
    NumeralHasNoSpace(h);
    var ws := [a, "days", b, "hours"];
    JoinFour(a, "days", b, "hours");
    assert ShowRemaining(DaysHours(d, h)) == Join(ws, [' ']);
    SplitJoin(ws, ' ');
    ParseNatToString(d);
    ParseNatToString(h);
  }

  lemma ReadHoursOnly(h: nat)
    ensures ReadRemaining(ShowRemaining(HoursOnly(h))) == Some(HoursOnly(h))
  {
    assert ShowRemaining(HoursOnly(h)) == NatToString(h) + " " + "hours";
    SplitNumberUnit(h, "hours");
    NumeralHasNoSpace(h);
    ParseNatToString(h);
  }

  lemma ReadMinutesOnly(m: nat)
    ensures ReadRemaining(ShowRemaining(MinutesOnly(m))) == Some(MinutesOnly(m))
  {
    assert ShowRemaining(MinutesOnly(m)) == NatToString(m) + " " + "minutes";
    SplitNumberUnit(m, "minutes");
    NumeralHasNoSpace(m);
    ParseNatToString(m);
  }

  /** Every remaining-time text names its figures unambiguously. */
  lemma ReadShowRemaining(r: Remaining)
    ensures ReadRemaining(ShowRemaining(r)) == Some(r)
  {
    match r
    case DaysHours(d, h) => ReadDaysHours(d, h);
    case HoursOnly(h) => ReadHoursOnly(h);
    case MinutesOnly(m) => ReadMinutesOnly(m);
  }

  /** The text shown for `ms` reads back as the rounded-down figures of `ms`. */
  lemma RemainingTimeReadsBack(ms: nat)
    ensures ReadRemaining(RemainingTime(ms)) == Some(RemainingOf(ms))
  {
    ReadShowRemaining(RemainingOf(ms));
  }

  // ---------------------------------------------------------------------
  // The fetch outcome
  // ---------------------------------------------------------------------

  /** What `getDoc` gave for the id: no such document, the document's id and data, or a failed read. */
  datatype Lookup = Missing | Found(docId: string, data: SpellCheck) | ReadFailed

  /** The page state `fetchCheck` leaves: the check shown, the error, the remaining-time text. */
  datatype ViewState = ViewState(check: Option<SpellCheck>, error: Option<string>, remainingTime: Option<string>)

  const NoIdError: string := "No check ID provided"
  const NotFoundError: string := "Check not found"
  const ExpiredError: string := "This shared check has expired"
  const LoadError: string := "Error loading the check"

  /** An `expire` before `now` has passed; one equal to `now` has not. */
  predicate Expired(data: SpellCheck, now: int)
  {
    data.expire.Some? && data.expire.value < now
  }

  /**
   * `fetchCheck` with its early returns in order: no id (an empty id counts
   * as none), no document, a failed read, a passed expiry; otherwise the
   * check is shown with the document's id and, when it has an expiry, the
   * time left.
   */
  function FetchCheck(checkId: Option<string>, lookup: Lookup, now: int): (v: ViewState)
    ensures v.check.Some? <==> v.error.None?
    ensures v.error.None? <==> Truthy(checkId) && lookup.Found? && !Expired(lookup.data, now)
    ensures v.error.Some? ==> v.error.value in {NoIdError, NotFoundError, LoadError, ExpiredError}
    ensures v.error == Some(NoIdError) <==> !Truthy(checkId)
    ensures v.error == Some(NotFoundError) <==> Truthy(checkId) && lookup.Missing?
    ensures v.error == Some(LoadError) <==> Truthy(checkId) && lookup.ReadFailed?
    ensures v.error == Some(ExpiredError) <==> Truthy(checkId) && lookup.Found? && Expired(lookup.data, now)
    ensures v.check.Some? ==> lookup.Found? && v.check.value == lookup.data.(id := Some(lookup.docId))
    ensures v.remainingTime.Some? <==> v.check.Some? && lookup.data.expire.Some?
    ensures v.remainingTime.Some? ==>
              lookup.data.expire.value >= now && v.remainingTime.value == RemainingTime(lookup.data.expire.value - now)
  {
    if !Truthy(checkId) then ViewState(None, Some(NoIdError), None)
    else
      match lookup
      case Missing => ViewState(None, Some(NotFoundError), None)
      case ReadFailed => ViewState(None, Some(LoadError), None)
      case Found(docId, data) =>
        if data.expire.Some? then
          if data.expire.value < now then ViewState(None, Some(ExpiredError), None)
          else ViewState(Some(data.(id := Some(docId))), None, Some(RemainingTime(data.expire.value - now)))
        else ViewState(Some(data.(id := Some(docId))), None, None)
  }

  /** The heading over an error: the three known messages have their own, anything else is a loading error. */
  function ErrorHeading(error: string): string
  {
    if error == NotFoundError then "Spell Check Not Found"
    else if error == ExpiredError then "Shared Check Has Expired"
    else if error == NoIdError then "Invalid Link"
    else "Error Loading Check"
  }

  const NotFoundText: string := "The spell check you're looking for doesn't exist or has been deleted."
  const ExpiredText: string := "This shared spell check has expired and is no longer accessible."
  const NoIdText: string := "The link you followed is invalid or incomplete."
  const LoadErrorText: string := "There was a problem loading the spell check. Please try again later."

  /** The sentence under the heading, chosen the same way. */
  function ErrorDescription(error: string): string
  {
    if error == NotFoundError then NotFoundText
    else if error == ExpiredError then ExpiredText
    else if error == NoIdError then NoIdText
    else LoadErrorText
  }

  /** Every way the fetch can fail ends under its own heading. */
  lemma OutcomeHeading(checkId: Option<string>, lookup: Lookup, now: int)
    ensures var v := FetchCheck(checkId, lookup, now);
      v.error.Some? ==>
        ErrorHeading(v.error.value) ==
          if !Truthy(checkId) then "Invalid Link"
          else if lookup.Missing? then "Spell Check Not Found"
          else if lookup.ReadFailed? then "Error Loading Check"
          else "Shared Check Has Expired"
  {
  }

  /** Every way the fetch can fail has its own sentence under the heading. */
  lemma OutcomeDescription(checkId: Option<string>, lookup: Lookup, now: int)
    ensures var v := FetchCheck(checkId, lookup, now);
      v.error.Some? ==>
        ErrorDescription(v.error.value) ==
          if !Truthy(checkId) then NoIdText
          else if lookup.Missing? then NotFoundText
          else if lookup.ReadFailed? then LoadErrorText
          else ExpiredText
  {
  }

  // ---------------------------------------------------------------------
  // Copying
  // ---------------------------------------------------------------------

  /** `handleCopyText`: the fragments joined by single spaces, a plain string as it is, or nothing. */
  function CopyText(c: Corrected): string
  {
    match c
    case Fragments(parts) => Join(parts, " ")
    case Plain(text) => text
    case Absent => ""
  }

  lemma {:induction false} JoinKeepsVisibleText(xs: seq<string>)
    ensures RemoveSpaces(Join(xs, " ")) == RemoveSpaces(Concat(xs))
  {
    if |xs| == 1 {
      ConcatSingle(xs[0]);
    } else if |xs| > 1 {
      JoinKeepsVisibleText(xs[1..]);
      RemoveSpacesAppend(xs[0] + " ", Join(xs[1..], " "));
      RemoveSpacesAppend(xs[0], " ");
      RemoveSpacesAppend(xs[0], Concat(xs[1..]));
    }
  }

  /**
   * What the copy button copies for a saved check: nothing when the check
   * was clean (its `corrected_string` is empty); otherwise the corrected
   * text with one extra space on each side of every whitespace fragment,
   * so the same visible characters and two more characters per whitespace.
   */
  lemma CopyOfSavedCheck(o: Oracle, input: string, lang: string, nowMs: int, user: Option<AuthUser>)
    ensures var rec := SavedCheck(Some(o), input, lang, nowMs, user).value;
      var r := Check(o, input);
      && (r.withoutErrors ==> CopyText(rec.correctedString) == "")
      && (!r.withoutErrors ==> RemoveSpaces(CopyText(rec.correctedString)) == RemoveSpaces(r.correctedText))
      && (!r.withoutErrors ==> |CopyText(rec.correctedString)| == |r.correctedText| + 2 * CountSpaces(input))
  {
    var r := Check(o, input);
    CheckShape(o, input);
    if !r.withoutErrors {
      JoinKeepsVisibleText(r.checked);
      JoinLength(r.checked, " ");
    }
  }
}
