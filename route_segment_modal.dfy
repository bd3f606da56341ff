/** The dialog that shows one leg of a day
    (components/RouteSegmentModal/RouteSegmentModal.tsx): the travel mode
    picker, the departure time editor and the arrival time it implies. */
module RouteSegmentModal {
  import opened Common
  import opened ScheduleTypes

  /** `segment.departureTime || fromPlace.visitTime || ""`: the leg's own
      departure when it has one, else the time of the place it leaves. */
  function InitialDeparture(segment: Segment, fromPlace: DayPlace): (r: string)
    ensures r == "" <==> (segment.departureTime.None? || segment.departureTime.value == "") && !HasTime(fromPlace)
    ensures r != "" ==> Some(r) == segment.departureTime || Some(r) == fromPlace.visitTime
    ensures segment.departureTime.Some? && segment.departureTime.value != "" ==> Some(r) == segment.departureTime
  {
    if segment.departureTime.Some? && segment.departureTime.value != "" then segment.departureTime.value
    else if HasTime(fromPlace) then fromPlace.visitTime.value
    else ""
  }

  /** `calculateArrivalTime`: nothing for no departure, else the departure
      moved on by the leg's duration, hours wrapped at 24. */
  function ArrivalTime(dep: string, durationMin: int): (r: string)
    ensures r == "" <==> dep == ""
  {
    if dep == "" then "" else ShiftClock(dep, durationMin, true)
  }

  /** An arrival read back in minutes is the departure plus the leg, within
      the day. */
  lemma ArrivalAfterDeparture(dep: string, durationMin: int)
    requires ClockMinutes(dep).Some? && ClockMinutes(dep).value + durationMin >= 0
    ensures ClockMinutes(ArrivalTime(dep, durationMin)) == Some((ClockMinutes(dep).value + durationMin) % 1440)
  {
    assert dep != "";
    ShiftClockReadsBack(dep, durationMin, true);
  }

  /** The state of one open dialog. */
  class SegmentModal {
    const fromPlace: DayPlace
    const toPlace: DayPlace
    const segment: Segment
    const defaultMode: TravelMode
    var selectedMode: TravelMode
    var departureTime: string
    var isEditingTime: bool

    /** The dialog opens on the leg's mode (else the default) and its
        initial departure, not editing; the default mode is driving unless
        the page passes one. */
    constructor(fromPlace: DayPlace, toPlace: DayPlace, segment: Segment, defaultMode: TravelMode := Driving)
      ensures this.fromPlace == fromPlace && this.toPlace == toPlace && this.segment == segment && this.defaultMode == defaultMode
      ensures selectedMode == segment.travelMode.GetOr(defaultMode)
      ensures departureTime == InitialDeparture(segment, fromPlace)
      ensures !isEditingTime
    {
      this.fromPlace := fromPlace;
      this.toPlace := toPlace;
      this.segment := segment;
      this.defaultMode := defaultMode;
      selectedMode := segment.travelMode.GetOr(defaultMode);
      departureTime := InitialDeparture(segment, fromPlace);
      isEditingTime := false;
    }

    /** `handleModeChange`: selects the mode and, when the page listens,
        reports it for this leg. */
    method ChangeMode(mode: TravelMode, listening: bool) returns (reported: Option<(string, string, TravelMode)>)
      modifies this
      ensures selectedMode == mode
      ensures departureTime == old(departureTime) && isEditingTime == old(isEditingTime)
      ensures reported.Some? <==> listening
      ensures reported.Some? ==> reported.value == (fromPlace.placeId, toPlace.placeId, mode)
    {
      selectedMode := mode;
      reported := if listening then Some((fromPlace.placeId, toPlace.placeId, mode)) else None;
    }

    /** The edit button. */
    method StartEditing()
      modifies this
      ensures isEditingTime
      ensures selectedMode == old(selectedMode) && departureTime == old(departureTime)
    {
      isEditingTime := true;
    }

    /** Typing in the time field. */
    method SetDeparture(value: string)
      modifies this
      ensures departureTime == value
      ensures selectedMode == old(selectedMode) && isEditingTime == old(isEditingTime)
    {
      departureTime := value;
    }

    /** `handleDepartureTimeSubmit`: reports a non-empty departure when the
        page listens and then closes the editor; otherwise nothing
        happens. */
    method SubmitDeparture(listening: bool) returns (reported: Option<(string, string, string)>)
      modifies this
      ensures reported.Some? <==> listening && departureTime != ""
      ensures reported.Some? ==> reported.value == (fromPlace.placeId, toPlace.placeId, departureTime) && !isEditingTime
      ensures reported.None? ==> isEditingTime == old(isEditingTime)
      ensures selectedMode == old(selectedMode) && departureTime == old(departureTime)
    {
      if listening && departureTime != "" {
        reported := Some((fromPlace.placeId, toPlace.placeId, departureTime));
        isEditingTime := false;
      } else {
        reported := None;
      }
    }

    /** `handleDepartureTimeCancel`: back to the departure the dialog
        opened with, editor closed. */
    method CancelDeparture()
      modifies this
      ensures departureTime == InitialDeparture(segment, fromPlace) && !isEditingTime
      ensures selectedMode == old(selectedMode)
    {
      departureTime := InitialDeparture(segment, fromPlace);
      isEditingTime := false;
    }

    /** The arrival shown under the editor and in the summary. */
    function Arrival(): (r: string)
      reads this
      ensures r == "" <==> departureTime == ""
    {
      ArrivalTime(departureTime, segment.durationMin)
    }
  }

  /** Whatever was typed, cancelling and submitting reports the departure
      the dialog opened with, or nothing when that is empty. */
  method CancelThenSubmit(m: SegmentModal, typed: string) returns (reported: Option<(string, string, string)>)
    modifies m
    ensures reported.Some? <==> InitialDeparture(m.segment, m.fromPlace) != ""
    ensures reported.Some? ==> reported.value == (m.fromPlace.placeId, m.toPlace.placeId, InitialDeparture(m.segment, m.fromPlace))
    ensures m.departureTime == InitialDeparture(m.segment, m.fromPlace) && !m.isEditingTime
  {
    m.StartEditing();
    m.SetDeparture(typed);
    m.CancelDeparture();
    reported := m.SubmitDeparture(true);
  }
}
