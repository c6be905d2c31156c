# Parkkiapuri reservation view, modelled in Dafny

Parkkiapuri is a browser front end for reserving parking spots. Its one
piece of logic is the `Reservation` component. It holds eight state slots:
the list of locations, the selected location, the spot list, the highlighted
spot, the duration in hours, the user's reservations, the spot to submit, and
one error message. Button clicks and backend replies update these slots.

The model has three modules beside a small `Wrappers` module (`Option`):

- `WireTime` (`time.dfy`): the start and end times sent with a create request.
  A clock reading is its UTC time of day in whole seconds (`TimeOfDay`).
  `Shift` moves a reading forward by whole hours and wraps at midnight, as
  `setHours(getHours() + h)` does. `Format` renders `HH:MM:SS` zero-padded, as
  `toISOString().substr(11, 8)` does. `Parse` is its inverse, and the two are
  proved to be mutual inverses.
- `Api` (`api.dfy`): the records the backend returns (`Location`, `Spot`,
  `Booking`), the body of the create request, the `Request` values the view
  emits, and the replies it receives. A list fetch either returns `result` or
  fails with a message. A create or delete answers `'successful'`, answers
  anything else, or fails in transport.
- `ReservationView` (`reservation.dfy`): the class `Reservation`, with one
  field per state slot and one method per handler. A method returns the
  requests the handler would send. A separate `On…Reply` method applies each
  later reply (the `.then`/`.catch` branches). Each method states the whole
  new state through `State()`, a snapshot of the eight slots. `Valid()` keeps
  the duration in [0, 24], and every method preserves it. The two
  duration-button clamps are pure functions. Lemmas about arbitrary sequences
  of button presses stand beside them.

The session values the component reads from `localStorage` (`userid`,
`rekisteri`) are method parameters of type `Option<string>`, where `None` is
`null`. The clock is a parameter too: `MakeReservation` takes two readings,
because the component calls `new Date()` once for the start and once for the
end.

The component keeps two spot slots, and the model keeps both. A location click
clears the highlighted `selectedSpot` but not `parkingSpot`. The submit guard
and the request body use `parkingSpot`. So a spot picked under one location
is sent with the next location's name (`StaleSpotIsSubmitted`). The
`setSelectedSpot('')` in the location handler (line 57) suggests the authors
meant a location change to discard the earlier spot. The model follows the
code, which clears only the highlight.

The spot fetch runs from an effect that depends on `selectedLocation`. React
runs that effect only when the value actually changes. So clicking the
location that is already selected emits no fetch, and clicking an empty name
emits none either.

## Model

| member | source | states |
|---|---|---|
| `ReservationView.Reservation.constructor` | parkki_apuri/src/components/Reservation.js:8-15 | all eight slots start with their initial values: empty lists, empty strings, duration 0, no error |
| `ReservationView.Reservation.Mount` | parkki_apuri/src/components/Reservation.js:17-53 | after the first render the locations fetch is always emitted first; the spot fetch only when a location is selected; the reservations fetch exactly when the stored user id is truthy, and for that id |
| `ReservationView.Reservation.HandleLocationClick` | parkki_apuri/src/components/Reservation.js:29-58 | the location becomes selected and the highlighted spot is cleared; `parkingSpot` and every other slot are unchanged; one spot fetch for the new location is emitted exactly when the location changed and is non-empty |
| `ReservationView.Reservation.HandleSpotClick` | parkki_apuri/src/components/Reservation.js:60-63 | both the submitted and the highlighted spot become the clicked spot; nothing else changes |
| `ReservationView.DecreasedHours` | parkki_apuri/src/components/Reservation.js:149-152 | the result is never negative, never above 24 when the input is not, one less for a positive input, 0 otherwise |
| `ReservationView.IncreasedHours` | parkki_apuri/src/components/Reservation.js:154-157 | the result is never above 24, never negative when the input is not, one more below 24, 24 otherwise |
| `ReservationView.Reservation.HandleDecreaseHour` | parkki_apuri/src/components/Reservation.js:149-152 | only the duration changes, to the decreased value, and it stays in [0, 24] |
| `ReservationView.Reservation.HandleIncreaseHour` | parkki_apuri/src/components/Reservation.js:154-157 | only the duration changes, to the increased value, and it stays in [0, 24] |
| `ReservationView.PressesStayInRange` | parkki_apuri/src/components/Reservation.js:149-157 | from any duration in [0, 24], every sequence of button presses ends in [0, 24] |
| `ReservationView.IncreasesSaturate` | parkki_apuri/src/components/Reservation.js:154-157 | `n` increments from `d` give `min(d + n, 24)` |
| `ReservationView.DecreasesSaturate` | parkki_apuri/src/components/Reservation.js:149-152 | `n` decrements from `d` give `max(d - n, 0)` |
| `ReservationView.ClampExamples` | parkki_apuri/src/components/Reservation.js:12-157 | from the initial 0, thirty increments give 24 and five decrements give 0 |
| `ReservationView.Reservation.MakeReservation` | parkki_apuri/src/components/Reservation.js:65-94 | no request is emitted exactly when the reserve button is disabled (no spot, or duration 0, line 214); then only the error slot changes, to the selection message; otherwise no slot changes and the one create request carries the stored user id, `parkingSpot`, the start and end wire times, the stored registration and the selected location |
| `ReservationView.Reservation.OnCreateReply` | parkki_apuri/src/components/Reservation.js:95-108 | `'successful'` clears the error and both spot slots and emits exactly one reservations refresh; any other result sets the rejection message and keeps the selection; a transport failure sets `'Error making reservation: '` plus its message; nothing else changes |
| `ReservationView.Reservation.HandleReservationDelete` | parkki_apuri/src/components/Reservation.js:128-131 | the emitted request is a delete of exactly the given reservation id; no slot changes |
| `ReservationView.Reservation.OnDeleteReply` | parkki_apuri/src/components/Reservation.js:132-146 | `'successful'` clears the error and emits one refresh; any other result sets `'Error deleting reservation.'`; a transport failure sets `'Error deleting reservation: '` plus its message; the reservation list is never changed by the reply itself |
| `ReservationView.Reservation.OnLocationsReply` | parkki_apuri/src/components/Reservation.js:19-25 | a listed reply replaces the locations verbatim; a failure sets only the error, to its fixed prefix plus the message |
| `ReservationView.Reservation.OnSpotsReply` | parkki_apuri/src/components/Reservation.js:31-37 | a listed reply replaces the spot list verbatim; a failure sets only the error, to its fixed prefix plus the message |
| `ReservationView.Reservation.OnReservationsLoaded` | parkki_apuri/src/components/Reservation.js:45-51 | a listed reply replaces the user's reservations verbatim; a failure sets only the error, to its fixed prefix plus the message |
| `ReservationView.Reservation.OnReservationsRefreshed` | parkki_apuri/src/components/Reservation.js:117-126 | a listed refresh replaces the user's reservations verbatim; a failure sets only the error, to its fixed prefix plus the message |
| `ReservationView.StaleSpotIsSubmitted` | parkki_apuri/src/components/Reservation.js:55-94 | a spot picked, then another location clicked, then one hour added: the create request pairs the earlier spot with the later location |
| `ReservationView.ResubmitNeedsNewSpot` | parkki_apuri/src/components/Reservation.js:65-109 | after a successful create exactly one refresh is emitted, and a second submission sends nothing and sets the selection message |
| `ReservationView.RejectedKeepsSelection` | parkki_apuri/src/components/Reservation.js:95-105 | after a rejected create the selection is intact, and submitting again emits the identical request |
| `ReservationView.Reservation.SubmitDisabled` | parkki_apuri/src/components/Reservation.js:212-216 | the reserve button's disabled condition, which is also the submit guard of line 66: when it is off, a spot is held in `parkingSpot` and, under the duration invariant, the duration is between 1 and 24 hours |
| `WireTime.Shift` | parkki_apuri/src/components/Reservation.js:75-81 | the reading moved forward by `h` hours: a time of day whose distance from the old reading is `h` hours modulo a day, which fixes it uniquely |
| `WireTime.Format` | parkki_apuri/src/components/Reservation.js:77-82 | the rendering is 8 characters, with colons at positions 2 and 5 and digits elsewhere, and its three digit pairs read back as the hours, minutes and seconds; `ParseFormat` and `FormatParse` prove `Parse` is its inverse |
| `WireTime.StartTime` | parkki_apuri/src/components/Reservation.js:75-77 | the start time is `Format` of the clock shifted by 2 hours, and it reads back as exactly that shifted reading |
| `WireTime.EndTime` | parkki_apuri/src/components/Reservation.js:80-82 | the end time is `Format` of the clock shifted by `duration + 2` hours, and it reads back as exactly that shifted reading |
| `WireTime.ShiftCompose` | parkki_apuri/src/components/Reservation.js:75-76 | moving a clock reading forward by `h` hours gives the time whose hour is the old hour plus `h` modulo 24, with the same minutes and seconds |
| `WireTime.ShiftFields` | parkki_apuri/src/components/Reservation.js:80-81 | after moving forward by whole hours, the hour field is advanced modulo 24 and the minutes and seconds are unchanged |
| `WireTime.ShiftShift` | parkki_apuri/src/components/Reservation.js:74-82 | two forward moves by `a` and `b` hours equal one move by `a + b` |
| `WireTime.ParseFormat` | parkki_apuri/src/components/Reservation.js:77-82 | reading back the `HH:MM:SS` rendering of a time gives the same time |
| `WireTime.FormatParse` | parkki_apuri/src/components/Reservation.js:77-82 | every string that reads as a time is exactly the rendering of that time: the rendering is 8 characters, zero-padded, with colons at positions 2 and 5 |
| `WireTime.FormatInjective` | parkki_apuri/src/components/Reservation.js:77-82 | distinct times are rendered as distinct strings |
| `WireTime.EndIsStartPlusDuration` | parkki_apuri/src/components/Reservation.js:74-82 | from one clock reading, both wire times are well formed; the end is the start moved forward by the duration; its hour is the start hour plus the duration modulo 24; its minutes and seconds are the clock's; and end minus start is the duration in seconds modulo a day |
| `WireTime.TenOClockForThreeHours` | parkki_apuri/src/components/Reservation.js:74-82 | for any clock reading at 10:00:00 and a three-hour duration, the start is `12:00:00` and the end is `15:00:00` |
| `WireTime.WrapsPastMidnight` | parkki_apuri/src/components/Reservation.js:74-82 | for any clock reading at 23:30:15 the start is `01:30:15`, and a 24-hour reservation ends at the same time of day |

## Left out

- The HTTP calls and the backend are not modelled. A request is a value the view emits, and its reply is an input to an `On…Reply` method.
- Replies are applied one at a time. The model does not capture concurrent replies that arrive out of order, such as a slow spot list for an earlier location overwriting a newer one.
- What the backend returns is an input. So the model does not show that a deleted reservation is missing from the next list. It proves only that a successful delete emits one refresh, and that the refresh reply replaces the list verbatim.
- `localStorage` is not modelled: the stored user id and registration are parameters. The user id is read again for the refresh after a create or delete, so the reply handlers take it too.
- `window.location.reload()` after a successful delete and all `console.log` calls are not modelled. What the page shows after the reload is outside the model.
- JSX rendering and CSS classes are not modelled. The one rendering rule kept is the reserve button's disabled condition (line 214), as `Reservation.SubmitDisabled`. It is the same condition as the submit guard.
- `WireTime.Shift`: time zones, daylight-saving transitions and `Date` internals are not modelled. `setHours` works in local time and `toISOString` formats in UTC. Moving the local hour forward by `h` equals moving the instant forward by `h` hours except across a daylight-saving change, which the model ignores. A clock reading is therefore the UTC time of day of the instant, truncated to whole seconds.
- `WireTime.Format` does not model `toISOString` on instants outside the years 0000–9999, whose longer year field would shift the `substr(11, 8)` window.
- `MakeReservation` takes two clock readings. A start and end exactly `duration` hours apart is proved only when the two readings are equal (`EndIsStartPlusDuration`); real calls taken a moment apart may differ by that moment.
- Values are typed by the fields the markup reads: `location.sijainti` (line 170), `spot.idParkit` (line 186) and `reservation.id` (line 232) are strings, and `result` is a list. JavaScript truthiness of other types, and a missing `result` field, are not modelled.
- The commented-out drafts after the component (lines 111-115 and 243-713) are dead code and are not modelled.
- `Startpage.js` holds only two navigation calls and markup, so it is not part of this model.
