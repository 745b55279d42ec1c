/**
 The shared state object and the handlers that change it in place: checkbox
 toggles, streak updates, the add/remove/clear operations on custom
 readings, reset of reading progress, and the notes store's add, remove and
 clear. Each handler's save to browser storage is left out; what is saved is
 the field it has just assigned.
 */
module Tracker {
  import opened Wrappers
  import Text
  import Seqs
  import Progress
  import Streak
  import Notes
  import Catalog

  datatype Kind = Reading | Practice

  class TrackerState {
    /** `trackerData`: the built-in catalog the state was created with. */
    const builtinReadings: seq<Catalog.Item>
    const practiceItems: seq<Catalog.PracticeItem>

    var readings: map<string, bool>
    var practice: map<string, bool>
    var customReadings: seq<Catalog.Item>
    var notes: seq<Notes.Note>
    var streak: Streak.Streak

    /** The state built from the loaded values (`Streak.Initial` when no streak is stored). */
    constructor (readings: map<string, bool>, practice: map<string, bool>,
                 notes: seq<Notes.Note>, streak: Streak.Streak, customReadings: seq<Catalog.Item>)
      ensures builtinReadings == Catalog.BuiltinReadings && practiceItems == Catalog.PracticeItems
      ensures this.readings == readings && this.practice == practice
      ensures this.notes == notes && this.streak == streak && this.customReadings == customReadings
    {
      builtinReadings := Catalog.BuiltinReadings;
      practiceItems := Catalog.PracticeItems;
      this.readings := readings;
      this.practice := practice;
      this.notes := notes;
      this.streak := streak;
      this.customReadings := customReadings;
    }

    /** `getReadingItems`: built-in items first, then custom items in insertion order. */
    function ReadingItems(): (r: seq<Catalog.Item>)
      reads this
      ensures |r| == |builtinReadings| + |customReadings|
      ensures r[..|builtinReadings|] == builtinReadings
      ensures forall x :: x in r <==> x in builtinReadings || x in customReadings
      ensures forall i :: 0 <= i < |customReadings| ==> r[|builtinReadings| + i] == customReadings[i]
    {
      builtinReadings + customReadings
    }

    /** What `updateProgress` displays, before formatting: each fraction is
        the done count of its items over their number (or 1 when there are
        none), and the overall value is their mean. */
    function Report(): (r: Progress.Report)
      reads this
      ensures Progress.Fractions(r, Progress.DoneCount(Catalog.Ids(ReadingItems(), Catalog.IdOf), readings),
                                 |ReadingItems()|,
                                 Progress.DoneCount(Catalog.Ids(practiceItems, Catalog.PracticeIdOf), practice),
                                 |practiceItems|)
    {
      var items := ReadingItems();
      var readingIds := Catalog.Ids(items, Catalog.IdOf);
      var practiceIds := Catalog.Ids(practiceItems, Catalog.PracticeIdOf);
      assert |readingIds| == |items| && |practiceIds| == |practiceItems|;
      Progress.Compute(readingIds, readings, practiceIds, practice)
    }

    /** `updateStreak(completedToday)` on day `today`. */
    method UpdateStreak(completedToday: bool, today: int)
      modifies this
      ensures streak == Streak.Next(old(streak), completedToday, today)
      ensures readings == old(readings) && practice == old(practice)
      ensures customReadings == old(customReadings) && notes == old(notes)
    {
      var count := streak.count;
      var date := streak.date;
      if completedToday {
        if date == Some(today) {
          // already counted today
        } else {
          if date == Some(today - 1) {
            count := count + 1;
          } else {
            count := 1;
          }
          streak := Streak.Streak(count, Some(today));
        }
      }
    }

    /** The checkbox change handler: record the new value, then update the
        streak, which only a checked practice item can advance. */
    method Toggle(kind: Kind, id: string, checked: bool, today: int)
      modifies this
      ensures kind == Reading ==> readings == old(readings)[id := checked] && practice == old(practice)
      ensures kind == Practice ==> practice == old(practice)[id := checked] && readings == old(readings)
      ensures streak == Streak.Next(old(streak), kind == Practice && checked, today)
      ensures customReadings == old(customReadings) && notes == old(notes)
    {
      if kind == Reading {
        readings := readings[id := checked];
      } else {
        practice := practice[id := checked];
      }
      UpdateStreak(kind == Practice && checked, today);
    }

    /** The reset-readings button: reading progress is emptied, practice is kept. */
    method ResetReadings()
      modifies this
      ensures readings == map[]
      ensures practice == old(practice) && streak == old(streak)
      ensures customReadings == old(customReadings) && notes == old(notes)
    {
      readings := map[];
    }

    /** `removeCustomReading(id)`: drop every custom item with that id and its progress entry. */
    method RemoveCustomReading(id: string)
      modifies this
      ensures customReadings == Seqs.Without(old(customReadings), Catalog.IdOf, id)
      ensures readings == old(readings) - {id}
      ensures practice == old(practice) && streak == old(streak) && notes == old(notes)
    {
      customReadings := Seqs.Without(customReadings, Catalog.IdOf, id);
      readings := readings - {id};
    }

    /** The clear-custom button: nothing happens when there are no custom
        items; otherwise they are all removed and every progress key that
        starts with `custom-` is deleted, one key at a time. */
    method ClearCustomReadings()
      modifies this
      ensures old(customReadings) == [] ==> customReadings == [] && readings == old(readings)
      ensures old(customReadings) != [] ==>
        customReadings == [] && readings == Catalog.WithoutCustomKeys(old(readings))
      ensures practice == old(practice) && streak == old(streak) && notes == old(notes)
    {
      if customReadings == [] {
        return;
      }
      customReadings := [];
      var keys := readings.Keys;
      while keys != {}
        invariant keys <= old(readings).Keys
        invariant forall k :: k in readings <==> k in old(readings) && (k in keys || !Catalog.IsCustomKey(k))
        invariant forall k :: k in readings ==> readings[k] == old(readings)[k]
        invariant customReadings == [] && practice == old(practice)
        invariant streak == old(streak) && notes == old(notes)
        decreases keys
      {
        var key :| key in keys;
        if Catalog.IsCustomKey(key) {
          readings := readings - {key};
        }
        keys := keys - {key};
      }
    }

    /** The add-reading submit handler: on success the new item is appended;
        on any error nothing changes. */
    method SubmitReading(rawTitle: string, rawLink: string, rawDescription: string, rawCategory: string,
                         now: nat, parseUrl: string -> Option<string>)
      returns (outcome: Result<Catalog.Item, Catalog.FormError>)
      modifies this
      ensures outcome == Catalog.ValidateReading(builtinReadings + old(customReadings), rawTitle, rawLink,
                                                 rawDescription, rawCategory, now, parseUrl)
      ensures outcome.Ok? ==> customReadings == old(customReadings) + [outcome.value]
      ensures outcome.Err? ==> customReadings == old(customReadings)
      ensures readings == old(readings) && practice == old(practice)
      ensures streak == old(streak) && notes == old(notes)
    {
      var existing := builtinReadings + customReadings;
      var r := Catalog.ValidateReading(existing, rawTitle, rawLink,
                                         rawDescription, rawCategory, now, parseUrl);
      match r {
        case Ok(item) => customReadings := customReadings + [item];
        case Err(_) =>
      }
      outcome := r;
    }

    /** `addNote(body)`: the new note goes first. */
    method AddNote(body: string, now: nat, nowIso: string) returns (note: Notes.Note)
      modifies this
      ensures note == Notes.Note("note-" + Text.NatToString(now), body, nowIso)
      ensures notes == [note] + old(notes)
      ensures readings == old(readings) && practice == old(practice)
      ensures streak == old(streak) && customReadings == old(customReadings)
    {
      note := Notes.Note("note-" + Text.NatToString(now), body, nowIso);
      notes := [note] + notes;
    }

    /** The note form and the quick-note dialog: a body that trims to empty is
        rejected; otherwise the trimmed body is added as a note. */
    method SubmitNote(raw: string, now: nat, nowIso: string) returns (accepted: bool)
      modifies this
      ensures accepted <==> Text.Trim(raw) != []
      ensures accepted ==> notes == [Notes.Note("note-" + Text.NatToString(now), Text.Trim(raw), nowIso)] + old(notes)
      ensures !accepted ==> notes == old(notes)
      ensures readings == old(readings) && practice == old(practice)
      ensures streak == old(streak) && customReadings == old(customReadings)
    {
      var body := Text.Trim(raw);
      if body == [] {
        return false;
      }
      var _ := AddNote(body, now, nowIso);
      accepted := true;
    }

    /** A note's remove button: an empty id does nothing; otherwise every note
        with that id is dropped. */
    method RemoveNote(noteId: string)
      modifies this
      ensures notes == if noteId == [] then old(notes) else Seqs.Without(old(notes), Notes.IdOf, noteId)
      ensures readings == old(readings) && practice == old(practice)
      ensures streak == old(streak) && customReadings == old(customReadings)
    {
      if noteId == [] {
        return;
      }
      notes := Seqs.Without(notes, Notes.IdOf, noteId);
    }

    /** The clear-notes button. */
    method ClearNotes()
      modifies this
      ensures notes == []
      ensures readings == old(readings) && practice == old(practice)
      ensures streak == old(streak) && customReadings == old(customReadings)
    {
      if notes == [] {
        return;
      }
      notes := [];
    }
  }

  /** Clearing custom progress keeps the built-in reading count. */
  lemma ClearKeepsBuiltinProgress(readings: map<string, bool>)
    ensures Progress.DoneCount(Catalog.Ids(Catalog.BuiltinReadings, Catalog.IdOf), Catalog.WithoutCustomKeys(readings))
         == Progress.DoneCount(Catalog.Ids(Catalog.BuiltinReadings, Catalog.IdOf), readings)
  {
    var ids := Catalog.Ids(Catalog.BuiltinReadings, Catalog.IdOf);
    var cleared := Catalog.WithoutCustomKeys(readings);
    Catalog.BuiltinIdsNotCustom();
    Progress.DoneCountSameDone(ids, cleared, readings);
  }

  /** The report over built-in plus custom readings: the reading fraction
      counts the done items of both lists over all of them. */
  lemma ReportCountsBoth(builtin: seq<Catalog.Item>, custom: seq<Catalog.Item>, readings: map<string, bool>,
                         practiceItems: seq<Catalog.PracticeItem>, practice: map<string, bool>)
    ensures Progress.Fractions(Progress.Compute(Catalog.Ids(builtin + custom, Catalog.IdOf), readings,
                                                Catalog.Ids(practiceItems, Catalog.PracticeIdOf), practice),
                               Progress.DoneCount(Catalog.Ids(builtin, Catalog.IdOf), readings)
                               + Progress.DoneCount(Catalog.Ids(custom, Catalog.IdOf), readings),
                               |builtin| + |custom|,
                               Progress.DoneCount(Catalog.Ids(practiceItems, Catalog.PracticeIdOf), practice),
                               |practiceItems|)
  {
    var ids := Catalog.Ids(builtin + custom, Catalog.IdOf);
    var practiceIds := Catalog.Ids(practiceItems, Catalog.PracticeIdOf);
    var rep := Progress.Compute(ids, readings, practiceIds, practice);
    assert Progress.Fractions(rep, Progress.DoneCount(ids, readings), |ids|,
                              Progress.DoneCount(practiceIds, practice), |practiceIds|);
    ReadingDoneSplits(builtin, custom, readings);
    assert |ids| == |builtin| + |custom| && |practiceIds| == |practiceItems|;
  }

  /** The reading totals count built-in and custom items together. */
  lemma ReadingDoneSplits(builtin: seq<Catalog.Item>, custom: seq<Catalog.Item>, readings: map<string, bool>)
    ensures Progress.DoneCount(Catalog.Ids(builtin + custom, Catalog.IdOf), readings)
         == Progress.DoneCount(Catalog.Ids(builtin, Catalog.IdOf), readings) + Progress.DoneCount(Catalog.Ids(custom, Catalog.IdOf), readings)
  {
    assert Catalog.Ids(builtin + custom, Catalog.IdOf) == Catalog.Ids(builtin, Catalog.IdOf) + Catalog.Ids(custom, Catalog.IdOf);
    Progress.DoneCountConcat(Catalog.Ids(builtin, Catalog.IdOf), Catalog.Ids(custom, Catalog.IdOf), readings);
  }
}
