# smalljobs core, modelled in Dafny

smalljobs is a marketplace for short jobs. Businesses post jobs, seekers describe where and when
they can work, and the backend matches the two. This project models the sequential logic at its
centre and proves properties of that logic:

- **`Matching`** is the backend matching engine. It covers:
  - case-insensitive containment of day and month lists;
  - `"H:M"` parsing as Python's `int` reads it;
  - time-slot containment with shifts that cross midnight;
  - the hard-filter-then-bonus match score, as a method with the original nested loops, proved against a score function.
- **`MatchRefresh`** is the stored match table, a map from a (job, seeker) key to a score. Its two refresh loops run when a job or a seeker profile is saved.
- **`AvailabilityEditor`** is the `{days, months, time_slots}` editor. It has the chip toggles, select-all, adding, removing and changing a shift, and the 48 half-hour time choices built by nested loops.
- **`ClockPicker`** is the clock-face time picker, modelled as a class holding its state. It has the 12/24-hour conversions and the zero-padded `"HH:MM"` it reports on confirm.
- **`LocationSelector`** is the service-area selector, modelled as a class. When a point is picked on the map:
  1. The primary city is chosen.
  2. The nearby places are filtered.
  3. They are sorted stably by distance, with an in-place insertion sort on an array.
  4. Repeated names are dropped, keeping each name's first occurrence.
  5. The list is split into the ten selected areas and a searchable pool.

  The selector also adds and removes area chips and runs the search filter.
- **`ApiClient`** is the HTTP client's CSRF cookie lookup, read from a `name=value; name2=value2` cookie string (section 4.2.1 of RFC 6265), and the request interceptor that sets the `X-CSRFToken` header.
- **`Skills`** is the common-skill chips and the comma-separated free-text skills that both dashboards edit. It proves the load-then-save round trip.
- **`SeekerDashboard`**, **`BusinessDashboard`** and **`Profile`** are the helpers inside the pages:
  - job-age buckets;
  - application status and suggested candidates;
  - paged job lists;
  - the job form for clear, edit, repost and submit;
  - open jobs and history;
  - the full-name join and split.

Shared helpers sit in `Wrappers` (Option), `Text` (JavaScript trim, Python strip, lower-casing, split, join, decimal digits), `Lists` (order-preserving filter, remove-all, toggle, subsequence) and `TimeOfDay` (the `"HH:MM"` form).

Answers from the network are parameters of the operations that use them:

- the reverse-geocoding address;
- the nearby places with their distances;
- a page of jobs;
- the cookie string.

The database's uniqueness facts are preconditions of the lemmas that need them: one profile per user, and one job per id.

The code sets the primary city (`frontend/src/components/LocationSelector.jsx` lines 75-76) before the nearby-place query, so a failure of that second query leaves the new city in place. `LocationSelector.Selector.HandleLocationChange` states that behaviour.

## Model

| member | source | states |
|---|---|---|
| Matching.CheckContainment | backend/core/utils.py:5-19 | True exactly when the requirement list is empty, the availability list is empty, or every requirement equals some available item ignoring case |
| Matching.CheckContainmentReflexive | backend/core/utils.py:17-19 | Every list of days or months contains itself |
| Matching.CheckContainmentIgnoresCase | backend/core/utils.py:17-18 | A requirement "mon" is met by an availability "Mon" |
| Matching.ParseDigits | backend/core/utils.py:24 | Defined exactly on non-empty runs of decimal digits, whose decimal value it gives |
| Matching.ParseIntOfDigits | backend/core/utils.py:24 | `int()` of a run of digits is its decimal value |
| Matching.ParseInt | backend/core/utils.py:24 | Defined exactly when the stripped text is digits after an optional sign, giving its signed decimal value; stripping removes the same ASCII whitespace Python does, the separators 0x1C-0x1F included |
| Matching.ParseIntStripsSeparators | backend/core/utils.py:24 | `int` of "9" followed by the separator 0x1C is 9 |
| Matching.TimeToMinutes | backend/core/utils.py:22-27 | A missing value gives None, and a parsed time has exactly two ':'-separated pieces; TimeToMinutesOfDigits and TimeToMinutesOfFormat give its value, TimeNeedsExactlyOneColon its failures |
| Matching.TimeNeedsExactlyOneColon | backend/core/utils.py:22-27 | A string with zero or several ':' never parses to minutes |
| Matching.TimeToMinutesOfDigits | backend/core/utils.py:22-25 | Two digit runs around one ':' parse to 60·H + M |
| Matching.TimeToMinutesOfFormat | backend/core/utils.py:22-25 | Every zero-padded "HH:MM" parses to 60·H + M minutes |
| Matching.SlotFitsCases | backend/core/utils.py:43-61 | A wrapping job never fits a non-wrapping seeker slot. A non-wrapping job fits a wrapping seeker slot iff it starts after the seeker's start or ends before the seeker's end. Otherwise start ≥ start and end ≤ end |
| Matching.UnparsableSlotNeverFits | backend/core/utils.py:35-41 | A slot with an endpoint that does not parse is never contained |
| Matching.SlotContainedInItself | backend/core/utils.py:47-48 | Every slot with parseable endpoints is contained in itself |
| Matching.SlotFitsMeansCovered | backend/core/utils.py:29-61 | For times within a day and a seeker slot with start ≠ end, the case analysis holds iff every minute of the job shift is a minute of the seeker shift |
| Matching.FullDaySeekerShiftRejectsStraddlingJob | backend/core/utils.py:59-61 | A seeker shift with start = end wraps and covers the whole day, yet 08:20-11:40 is rejected against 10:00-10:00 |
| Matching.IsSlotContained | backend/core/utils.py:29-61 | A slot is contained only when all four endpoints parse; SlotFitsCases gives the case table and SlotFitsMeansCovered its meaning as minute coverage |
| Matching.FindFit | backend/core/utils.py:115-119 | The inner scan with its break sets `found_fit` iff some seeker slot contains the job slot |
| Matching.EverySlotFits | backend/core/utils.py:114-121 | The outer loop over the job slots, with its early return, answers true iff every job slot fits some seeker slot |
| Matching.CalculateMatchScore | backend/core/utils.py:65-136 | The loops compute the match score: 0 when a hard check fails, else 10 + 5 per shared skill + 5 (pay ≥ set minimum) + 2 (pay ≤ set maximum) |
| Matching.MatchScore | backend/core/utils.py:65-136 | The reference score is 0 or at least the base score 10; MatchScoreZeroIffHardCheckFails and MatchScoreBounds give the rest |
| Matching.MatchScoreZeroIffHardCheckFails | backend/core/utils.py:70-121 | The score is 0 exactly when the location, skills, months, days or slots check fails |
| Matching.MatchScoreBounds | backend/core/utils.py:123-136 | A score is 0 or between 10 and 17 + 5 per required skill |
| Matching.NoSeekerSlotsNoMatch | backend/core/utils.py:110-112 | A job with slots never matches a seeker without slots |
| MatchRefresh.Store | backend/core/utils.py:149-157 | Upsert or delete of one (job, seeker) row; every other row unchanged |
| MatchRefresh.RefreshJob | backend/core/utils.py:139-157 | A job refresh never touches the rows of another job; RefreshJobSpec decides each seeker's row |
| MatchRefresh.RefreshJobSpec | backend/core/utils.py:139-157 | After a job refresh, each seeker holds its current score iff positive and available, else no row; other rows unchanged |
| MatchRefresh.RefreshJobIdempotent | backend/core/utils.py:139-157 | Refreshing a job twice leaves the table as one refresh does |
| MatchRefresh.DropSeeker | backend/core/utils.py:164-167 | No row of the seeker remains; every other row is unchanged |
| MatchRefresh.RefreshSeekerJobsSpec | backend/core/utils.py:172-182 | After the seeker loop, each visited job holds the current score iff positive, else no row; other rows unchanged |
| MatchRefresh.RefreshSeeker | backend/core/utils.py:159-182 | Rows of other seekers never change, and an unavailable seeker keeps no row; RefreshSeekerSpec gives the rest |
| MatchRefresh.RefreshSeekerSpec | backend/core/utils.py:159-182 | An unavailable seeker ends with no rows. For an available one, each active job holds the positive score or nothing, and rows against inactive or unlisted jobs are kept as they were. Other seekers' rows never change |
| MatchRefresh.MatchTable.UpdateMatchesForJob | backend/core/utils.py:139-157 | The loop leaves the table equal to the job refresh of the old table |
| MatchRefresh.MatchTable.UpdateMatchesForSeeker | backend/core/utils.py:159-182 | The early return and the loop leave the table equal to the seeker refresh of the old table |
| AvailabilityEditor.Normalize | frontend/src/components/AvailabilitySelector.jsx:8-12 | Missing days, months or shifts read as empty lists; present ones are kept |
| AvailabilityEditor.ToggleItem | frontend/src/components/AvailabilitySelector.jsx:14-20 | A selected item leaves (every copy) while every other entry keeps its order and its number of copies; an unselected one is appended; other group and shifts unchanged |
| AvailabilityEditor.ToggleItemTwiceRestores | frontend/src/components/AvailabilitySelector.jsx:16-18 | Toggling an unselected item twice restores the value exactly |
| AvailabilityEditor.ToggleAll | frontend/src/components/AvailabilitySelector.jsx:22-27 | The group becomes [] or the full domain, [] exactly when all of the domain was selected |
| AvailabilityEditor.ToggleAllTwiceClears | frontend/src/components/AvailabilitySelector.jsx:22-27 | Select All then Deselect All leaves the group empty |
| AvailabilityEditor.AddTimeSlot | frontend/src/components/AvailabilitySelector.jsx:29-34 | Exactly one blank shift appended, existing shifts unchanged |
| AvailabilityEditor.DropIndex | frontend/src/components/AvailabilitySelector.jsx:37 | Filtering by position drops exactly entry i, or nothing when i is out of range |
| AvailabilityEditor.RemoveTimeSlot | frontend/src/components/AvailabilitySelector.jsx:36-39 | In range: one shorter, the other shifts in order; out of range: unchanged |
| AvailabilityEditor.AddThenRemoveRestores | frontend/src/components/AvailabilitySelector.jsx:29-39 | Removing the shift just added restores the value |
| AvailabilityEditor.UpdateTimeSlot | frontend/src/components/AvailabilitySelector.jsx:41-45 | Only the named field of shift i changes; other field, other shifts, length and groups unchanged |
| AvailabilityEditor.TimeOptions | frontend/src/components/AvailabilitySelector.jsx:47-55 | The nested loops build 48 choices, choice k being hour k/2 and minute 30·(k mod 2), zero-padded |
| AvailabilityEditor.OptionShape | frontend/src/components/AvailabilitySelector.jsx:49-54 | Each choice is five characters "HH:MM" whose hour field reads 0-23 and whose minute field reads 0 or 30 |
| AvailabilityEditor.OptionMinutes | frontend/src/components/AvailabilitySelector.jsx:49-54 | The matching engine reads choice k as minute 30·k |
| AvailabilityEditor.OptionsIncreasing | frontend/src/components/AvailabilitySelector.jsx:48-55 | The choices are in strictly increasing time order |
| AvailabilityEditor.BlankSlotNeverFits | frontend/src/components/AvailabilitySelector.jsx:32 | A freshly added blank shift is contained in no shift and contains none |
| AvailabilityEditor.PickedSlotFitsItself | frontend/src/components/AvailabilitySelector.jsx:48-55 | A shift with both ends picked from the choices is contained in itself |
| ClockPicker.MeridiemOf | frontend/src/components/ClockPicker.jsx:19 | PM exactly for hours ≥ 12 |
| ClockPicker.ParsePickerValue | frontend/src/components/ClockPicker.jsx:15-16 | Reads a value only when it is "" or holds a ':'; EmptyValueMeansNine and ParseFormatted give the values it reads |
| ClockPicker.DisplayHour | frontend/src/components/ClockPicker.jsx:23 | The shown hour is in 1..12 and equals the hour modulo 12 (0 shown as 12) |
| ClockPicker.To24 | frontend/src/components/ClockPicker.jsx:37 | 12 AM is 0, 12 PM is 12, other PM readings add 12; result in 0..23, ≥ 12 iff PM, showing the same reading |
| ClockPicker.To24OfDisplayHour | frontend/src/components/ClockPicker.jsx:45-50 | Every hour of the day is recovered from its reading and AM/PM |
| ClockPicker.EmptyValueMeansNine | frontend/src/components/ClockPicker.jsx:15-16 | An empty value reads as 09:00 |
| ClockPicker.ParseFormatted | frontend/src/components/ClockPicker.jsx:52-55 | The emitted "HH:MM" reads back as the confirmed hour and minute |
| ClockPicker.FormatTo12h | frontend/src/components/ClockPicker.jsx:59-64 | The text ends with " AM" or " PM" according to the hour |
| ClockPicker.FormatTo12hRoundTrip | frontend/src/components/ClockPicker.jsx:59-64 | The twelve-hour text reads back as the hour (0..23) and minute it shows |
| ClockPicker.Picker.constructor | frontend/src/components/ClockPicker.jsx:5-20 | Closed, hour face, nothing reported, hour/minute/AM-PM read from the value |
| ClockPicker.Picker.Sync | frontend/src/components/ClockPicker.jsx:14-20 | Hour and minute become the value's (09:00 when empty), AM/PM follows the hour |
| ClockPicker.Picker.SetValue | frontend/src/components/ClockPicker.jsx:14-20 | A changed value is re-read; an unchanged one leaves the state alone |
| ClockPicker.Picker.ToggleOpen | frontend/src/components/ClockPicker.jsx:98-101 | Open state flips, mode resets to hours, state re-read from the value |
| ClockPicker.Picker.Close | frontend/src/components/ClockPicker.jsx:188 | Cancel or the backdrop closes without reporting; an open picker drops its unconfirmed choice |
| ClockPicker.Picker.MouseDown | frontend/src/components/ClockPicker.jsx:25-33 | Only a press outside closes, and nothing is reported |
| ClockPicker.Picker.ShowFace | frontend/src/components/ClockPicker.jsx:136-144 | The read-out buttons switch the face and change nothing else |
| ClockPicker.Picker.Select | frontend/src/components/ClockPicker.jsx:35-43 | On the hour face the label becomes an hour of the day under AM/PM, 0..23, and the minute face opens; on the minute face only the minute changes |
| ClockPicker.Picker.ToggleAmpm | frontend/src/components/ClockPicker.jsx:45-50 | The twelve-hour reading is kept, the hour lands in 12..23 for PM and 0..11 for AM, and the invariant hour ≥ 12 iff PM holds |
| ClockPicker.Picker.Confirm | frontend/src/components/ClockPicker.jsx:52-57 | Exactly one zero-padded "HH:MM" is reported, it reads back as the confirmed hour and minute, and the picker closes |
| LocationSelector.PrimaryCity | frontend/src/components/LocationSelector.jsx:75 | The first non-empty of city, town, village, county, else "" |
| LocationSelector.Candidates | frontend/src/components/LocationSelector.jsx:86-92 | Exactly the named places whose name differs from the primary city, in the order the query returned them and as often as they occur there |
| LocationSelector.SortByDistance | frontend/src/components/LocationSelector.jsx:95 | The array ends sorted by distance, the places at each distance in their original order |
| LocationSelector.StableSortSameElements | frontend/src/components/LocationSelector.jsx:95 | The sort loses and invents no place |
| LocationSelector.UniqueNames | frontend/src/components/LocationSelector.jsx:97-105 | The seen-set loop keeps the names of first occurrences, primary city excluded |
| LocationSelector.KeepFirst | frontend/src/components/LocationSelector.jsx:98-105 | Never longer than its input; SortedUniqueSpec states which names it keeps |
| LocationSelector.SortedUniqueSpec | frontend/src/components/LocationSelector.jsx:95-105 | The neighbour list has no repeats, never the primary city, holds every other candidate name at its nearest distance, nearest first |
| LocationSelector.SelectionPoolSplit | frontend/src/components/LocationSelector.jsx:107-108 | The selection starts with the primary city, holds at most ten areas (ten when nine neighbours exist), and selection + pool = primary + neighbours |
| LocationSelector.Selection | frontend/src/components/LocationSelector.jsx:107 | One to ten areas, the primary city first |
| LocationSelector.Pool | frontend/src/components/LocationSelector.jsx:108 | Empty exactly when there are at most nine neighbours |
| LocationSelector.SearchOptions | frontend/src/components/LocationSelector.jsx:160-163 | Exactly the found cities not selected whose lower-case name contains the lower-case query, in order |
| LocationSelector.SearchOptionsAfterPick | frontend/src/components/LocationSelector.jsx:107-111 | Right after a pick, the search list is the matching part of the pool, nearest first |
| LocationSelector.Selector.FilteredOptions | frontend/src/components/LocationSelector.jsx:160-163 | The component's search list, as above over its current state |
| LocationSelector.Selector.constructor | frontend/src/components/LocationSelector.jsx:28-33 | Truthy initial data seeds position, city and areas; otherwise the default point, "" and [] |
| LocationSelector.Selector.InitialDataChanged | frontend/src/components/LocationSelector.jsx:36-46 | Each truthy part of new initial data overwrites its state; nothing is cleared |
| LocationSelector.Selector.SetSearchQuery | frontend/src/components/LocationSelector.jsx:207-208 | The query becomes the typed text; point, city, areas and found cities unchanged |
| LocationSelector.Selector.HandleLocationChange | frontend/src/components/LocationSelector.jsx:69-125 | Described in the note below this table |
| LocationSelector.Selector.AddCityFromSearch | frontend/src/components/LocationSelector.jsx:127-139 | An absent city is appended, the query cleared and the list reported; a present one changes and reports nothing |
| LocationSelector.Selector.RemoveCity | frontend/src/components/LocationSelector.jsx:141-150 | Every copy leaves, the rest keep their order, the same point and city are reported |
| LocationSelector.ToggleKeepsDistinctIfAbsent | frontend/src/components/LocationSelector.jsx:128-129 | Adding from search keeps the area list free of repeats |
| LocationSelector.AddThenRemoveCity | frontend/src/components/LocationSelector.jsx:127-150 | Adding a city and removing its chip restores the list |
| ApiClient.FirstMatch | frontend/src/api/axios.js:14-21 | The first segment that, once trimmed, starts with name=, or none |
| ApiClient.CookieValue | frontend/src/api/axios.js:11-24 | None for an empty cookie string; a value exactly when some trimmed segment starts with name= |
| ApiClient.GetCookie | frontend/src/api/axios.js:11-24 | The loop with its break returns the lookup's answer |
| ApiClient.Intercept | frontend/src/api/axios.js:25-29 | The header is set to the token only when non-empty; headers otherwise unchanged; the same config returned |
| ApiClient.SegmentMatchesIffSameName | frontend/src/api/axios.js:17 | A name=value segment matches exactly its own name |
| ApiClient.LookupSerialized | frontend/src/api/axios.js:11-24 | Reading a browser-written cookie string gives the decoded value of the first cookie of that name, or none |
| ApiClient.LongerNameDoesNotMatch | frontend/src/api/axios.js:17 | csrftokenX=1 is skipped and csrftoken=2 found |
| Lists.Toggle | frontend/src/pages/SeekerDashboard.jsx:157-163 | A present chip leaves everywhere, an absent one is appended; nothing else changes |
| Lists.ToggleTwiceRestores | frontend/src/pages/BusinessDashboard.jsx:291-297 | Toggling an absent chip twice restores the list |
| Lists.ToggleKeepsDistinct | frontend/src/pages/BusinessDashboard.jsx:291-297 | The toggle keeps a repeat-free chip list repeat-free |
| Lists.Filter | frontend/src/pages/BusinessDashboard.jsx:108 | An order-preserving sublist holding exactly the elements that pass |
| Lists.FilterPartition | frontend/src/pages/SeekerDashboard.jsx:124-125 | The passing and failing parts together are the list as a multiset |
| Skills.ParseSkills | frontend/src/pages/BusinessDashboard.jsx:301 | Never yields an empty skill; ParsedSkillsShape and ReparseOthers give the rest |
| Skills.ParsedSkillsShape | frontend/src/pages/BusinessDashboard.jsx:301 | Each parsed skill is non-empty, trimmed and comma-free |
| Skills.SavedSkills | frontend/src/pages/SeekerDashboard.jsx:167-168 | The chips first, then the parsed text |
| Skills.PartitionKeepsSkills | frontend/src/pages/SeekerDashboard.jsx:124-125 | Common and other parts hold exactly the skills, as a multiset |
| Skills.ReparseOthers | frontend/src/pages/SeekerDashboard.jsx:127 | Parsing the ", "-joined others gives them back when each is plain |
| Skills.LoadThenSaveKeepsSkills | frontend/src/pages/SeekerDashboard.jsx:124-168 | Loading a list into the editor and saving keeps every skill as a multiset |
| SeekerDashboard.JobAgeOf | frontend/src/pages/SeekerDashboard.jsx:42-55 | Just now below 60 s (also negative), minutes 1-59, hours 1-23, days 1-29, then the date, each bracketing the difference |
| SeekerDashboard.JobAgeMonotone | frontend/src/pages/SeekerDashboard.jsx:45-54 | An older posting never shows a younger age |
| SeekerDashboard.FreshPostingsAreJustNow | frontend/src/pages/SeekerDashboard.jsx:45-47 | Under a minute (or in the future) shows "Just now" |
| SeekerDashboard.ApplicationStatus | frontend/src/pages/SeekerDashboard.jsx:215-218 | The status of the first application to the job, none iff there is none |
| SeekerDashboard.LaterApplicationsDoNotChangeStatus | frontend/src/pages/SeekerDashboard.jsx:215-218 | Later applications never change a known status |
| SeekerDashboard.AfterPage | frontend/src/pages/SeekerDashboard.jsx:77-81 | Reset replaces the list; otherwise the page follows the existing jobs |
| SeekerDashboard.AppendPagesConcatenates | frontend/src/pages/SeekerDashboard.jsx:77-81 | Scrolling page after page lists the pages' jobs in order |
| SeekerDashboard.ResetThenScroll | frontend/src/pages/SeekerDashboard.jsx:77-81 | A reset followed by pages lists exactly those pages |
| SeekerDashboard.JobBrowser.constructor | frontend/src/pages/SeekerDashboard.jsx:32-35 | Empty list, page 1, no more pages, not loading |
| SeekerDashboard.JobBrowser.FetchAllJobs | frontend/src/pages/SeekerDashboard.jsx:66-89 | On success the list is replaced or appended, the page recorded and hasMore set from next; on failure only the loading flag moves |
| SeekerDashboard.SyncSkillEditor | frontend/src/pages/SeekerDashboard.jsx:122-133 | With common skills known, a non-empty list splits into chips and ", "-joined others; an empty one clears the editor |
| BusinessDashboard.ApplicationsForJob | frontend/src/pages/BusinessDashboard.jsx:107-109 | Exactly the applications to the job, in order |
| BusinessDashboard.Applicants | frontend/src/pages/BusinessDashboard.jsx:138 | Exactly the seekers who applied to the job |
| BusinessDashboard.SuggestedCandidates | frontend/src/pages/BusinessDashboard.jsx:136-140 | The job's matches whose seeker has not applied, a sublist of the job's matches |
| BusinessDashboard.ApplyingRemovesSuggestion | frontend/src/pages/BusinessDashboard.jsx:136-140 | After an application the seeker is no longer suggested, and no one new is |
| BusinessDashboard.ClearForm | frontend/src/pages/BusinessDashboard.jsx:120-134 | Every field empty or null (the pay input the empty text), requirements three empty lists, no chips, no job being edited; the view unchanged |
| BusinessDashboard.FormFromJob | frontend/src/pages/BusinessDashboard.jsx:364-376 | The form shows every field of the job, its other skills as ", "-joined text and its requirements (three empty lists when it has none), with its id, creation time, owner and active flag |
| BusinessDashboard.Edit | frontend/src/pages/BusinessDashboard.jsx:364-376 | The form shows every field of the job (title, description, location, address, coordinates, pay, other skills as text, requirements) with its id, creation time, owner and active flag; the chips are its common skills; the job is the one being edited; the create view opens |
| BusinessDashboard.Repost | frontend/src/pages/BusinessDashboard.jsx:346-362 | The form shows every field of the job as for an edit, but with no id, creation time or owner, marked active; the chips are its common skills; nothing is being edited; the create view opens |
| BusinessDashboard.RepostIsEditWithoutMetadata | frontend/src/pages/BusinessDashboard.jsx:346-376 | A repost fills the form as an edit does, except id, creation time, owner and active flag, and it edits no job |
| BusinessDashboard.Submit | frontend/src/pages/BusinessDashboard.jsx:299-325 | An update of the job being edited (a truthy id), otherwise a creation; skills are chips then parsed text |
| BusinessDashboard.AfterSubmit | frontend/src/pages/BusinessDashboard.jsx:320-324 | After a success the jobs view shows and the form, chips and edited job are cleared; after a failure nothing changes |
| BusinessDashboard.SubmitAfterSuccessCreates | frontend/src/pages/BusinessDashboard.jsx:299-324 | After a successful submit, even an update, the next submit creates a job from the empty form |
| BusinessDashboard.RetryAfterFailureResends | frontend/src/pages/BusinessDashboard.jsx:322-324 | After a failed submit, submitting again sends the same request |
| BusinessDashboard.EditThenSubmit | frontend/src/pages/BusinessDashboard.jsx:299-376 | Edit then submit updates that job with the same skills as a multiset |
| BusinessDashboard.RepostThenSubmit | frontend/src/pages/BusinessDashboard.jsx:299-362 | Repost then submit creates a new active job with the same skills |
| BusinessDashboard.ClearThenSubmit | frontend/src/pages/BusinessDashboard.jsx:120-134 | After clearing, a submit creates a job from the empty form with no skills |
| BusinessDashboard.FilteredJobs | frontend/src/pages/BusinessDashboard.jsx:378 | Exactly the inactive jobs in history, exactly the active ones otherwise, in order |
| BusinessDashboard.OpenAndHistoryPartitionJobs | frontend/src/pages/BusinessDashboard.jsx:378 | Open and history lists together hold every job once |
| Profile.FullName | frontend/src/pages/Profile.jsx:33-35 | The first name, then a blank and the last name only when it is non-empty |
| Profile.SplitName | frontend/src/pages/Profile.jsx:56-59 | The first name holds no blank; without a blank the last name is ""; otherwise full = first + " " + last |
| Profile.SplitFullName | frontend/src/pages/Profile.jsx:33-60 | For a blank-free first name, splitting the built full name gives back both names |
| Profile.FullNameOfSplit | frontend/src/pages/Profile.jsx:33-60 | Joining the page's own split of the name field gives back the text, except a trailing first blank is dropped |
| Profile.WithAccountName | frontend/src/pages/Profile.jsx:31-36 | Only the full name changes on load |
| Profile.SaveRequests | frontend/src/pages/Profile.jsx:44-60 | The profile update carries exactly bio, location and phone number; the account update the split name |
| Profile.LoadThenSave | frontend/src/pages/Profile.jsx:25-60 | The two requests a save of a freshly loaded page sends carry the loaded names and profile fields |

`LocationSelector.Selector.HandleLocationChange` states the following:

- The pin always moves to the picked point.
- A failed address lookup reports nothing and keeps the city.
- A successful lookup sets the primary city.
- A non-seeker reports the city with no areas.
- For a seeker, the report is made iff the nearby query succeeded. The neighbour list is then the stable-sorted, first-occurrence names, the selection is the primary city plus up to nine neighbours, and the search list is the pool.

## Left out

- Network calls: the REST API, the reverse-geocoding and nearby-place services and device geolocation are not modelled. Their answers are parameters, and the "use my location" button is the same handler as a map click.
- Request construction in `fetchAllJobs` (the search, skills and ordering query parameters) is not modelled. So is a server answer that is not paginated.
- Distances between points (the haversine formula) are inputs. The clock face's angles and needle are not modelled. Neither is rendering, styling or JSX.
- The search debounce, the notification and chat polling, and every timer are not modelled.
- The Django views, serializers, signals, models, admin and URL wiring are not part of this model. The ORM-backed match table is a map from (job, seeker) to score.
- Dates and locales are not modelled. The job age takes an integer millisecond difference, and the posting's locale date is an opaque string parameter.
- ApiClient.CookieValue: `decodeURIComponent` is a total function parameter, so its failure on malformed percent-escapes is not modelled.
- Text handling covers ASCII only. The matching engine strips what Python's `str.strip` strips in ASCII (space, tab, line feed, carriage return, vertical tab, form feed and the separators 0x1C-0x1F); the frontend trims what JavaScript's `trim` trims in ASCII (the same without the separators). Non-ASCII whitespace such as U+00A0 or U+2028, and non-ASCII letters for lower-casing, are not covered on either side.
- Matching.ParseInt does not accept the underscores or non-ASCII digits that Python's `int` accepts.
- Matching.CalculateMatchScore returns a whole number. The source starts from the float 10.0 and adds whole numbers (the pay fields are positive integer fields), so the values agree.
- Matching.CheckContainment takes lists of strings, so `str(item)` of a non-string JSON item is not modelled.
- Matching.TimeToMinutes reads a missing or non-string endpoint as None, and a JSON `null` list as empty.
- ClockPicker.Picker.constructor requires a value ClockPicker.ParsePickerValue reads: "" or a value whose first two ':'-separated pieces are non-empty runs of ASCII digits. For other values JavaScript's `Number` yields states the model does not represent: with no ':' ("9") the minute is `undefined`; an empty piece ("09:") reads as 0; surrounding blanks are trimmed (" 9:30" gives hour 9); fractions, signs, exponents and hexadecimal are numbers ("9.5:0" gives hour 9.5); anything else ("ab:cd") is `NaN`.
- ClockPicker.Picker.Sync and ClockPicker.Picker.SetValue carry the same requirement for the same reason.
- AvailabilityEditor.UpdateTimeSlot requires an index inside the list. For an index past the end, JavaScript would grow the array with holes, and that case is not modelled.
- LocationSelector.Selector.HandleLocationChange does not model the loading flag's value while a request is pending. It also does not model the exception a place without a `tags` object would raise.
- The `searchableCities` variable in `handleLocationChange` is computed and never used, so it is not modelled. The pool appears only through the search list.
- Records.JobPost holds a job's requirements as three lists or null. A job stored with the empty object `{}`, the field's default, is not represented; the availability editor reads the missing lists of such an object as empty (AvailabilityEditor.Normalize).
- The profile page's merge of the fetched profile into local state, its save messages and the dashboards' alerts are not modelled.
- Profile.SaveRequests: models the requests the page sends, not whether the server accepts them. The account update goes to `auth/me/` (`frontend/src/pages/Profile.jsx` line 57). The backend routes that path to `UserDetailView` (`backend/accounts/urls.py` line 8), a retrieve-only view (`backend/accounts/views.py` line 38), so the names are never stored. The profile update has already gone through by then, and the page reports "Failed to update profile." The backend's views are not part of this model.
- Profile.FullName takes an absent last name as "". JavaScript treats `null` as falsy, so the result is the same.
