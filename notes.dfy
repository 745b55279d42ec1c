/**
 The notes store: note records, the filter that `loadNotes` applies to the
 stored list, the one-time migration of the legacy single-string note, and
 the newest-first ordering by `createdAt`.

 Parsing a `createdAt` string into a time (`new Date(...)`) is a library
 call; it is the parameter `timeOf`, which maps a `createdAt` string to its
 position in time.
 */
module Notes {
  import opened Wrappers
  import opened Storage
  import Text
  import Seqs

  datatype Note = Note(id: string, body: string, createdAt: string)

  function IdOf(n: Note): string
  {
    n.id
  }

  /** A stored element is kept when it is an object whose `id`, `body` and
      `createdAt` are all strings. */
  function DecodeNote(j: Json): (r: Option<Note>)
    ensures r.Some? <==> j.JObj? && (forall k :: k in ["id", "body", "createdAt"] ==> k in j.fields && j.fields[k].JStr?)
    ensures r.Some? ==> r.value == Note(j.fields["id"].s, j.fields["body"].s, j.fields["createdAt"].s)
  {
    match j
    case JObj(f) =>
      if "id" in f && f["id"].JStr? && "body" in f && f["body"].JStr? && "createdAt" in f && f["createdAt"].JStr?
      then Some(Note(f["id"].s, f["body"].s, f["createdAt"].s))
      else None
    case _ => None
  }

  /** The record a note is saved as (`JSON.stringify` of the note). */
  function EncodeNote(n: Note): Json
  {
    JObj(map["id" := JStr(n.id), "body" := JStr(n.body), "createdAt" := JStr(n.createdAt)])
  }

  /** The well-formed stored notes, in stored order. */
  function WellFormed(elems: seq<Json>): (r: seq<Note>)
    ensures |r| <= |elems|
    ensures forall n :: n in r <==> exists j :: j in elems && DecodeNote(j) == Some(n)
    decreases |elems|
  {
    if elems == [] then []
    else
      var rest := WellFormed(elems[1..]);
      assert forall j :: j in elems <==> j == elems[0] || j in elems[1..];
      match DecodeNote(elems[0])
      case Some(n) => [n] + rest
      case None => rest
  }

  function EncodeAll(ns: seq<Note>): (r: seq<Json>)
    ensures |r| == |ns|
  {
    if ns == [] then [] else [EncodeNote(ns[0])] + EncodeAll(ns[1..])
  }

  /** Saving notes and reading them back gives the same notes, in the same order. */
  lemma {:induction false} SaveThenLoad(ns: seq<Note>)
    ensures WellFormed(EncodeAll(ns)) == ns
    decreases |ns|
  {
    if ns != [] {
      var e := EncodeAll(ns);
      assert e[1..] == EncodeAll(ns[1..]);
      assert DecodeNote(e[0]) == Some(ns[0]);
      SaveThenLoad(ns[1..]);
    }
  }

  /** The filter keeps the stored order: it works element by element. */
  lemma {:induction false} WellFormedConcat(a: seq<Json>, b: seq<Json>)
    ensures WellFormed(a + b) == WellFormed(a) + WellFormed(b)
    decreases |a|
  {
    if a == [] {
      assert a + b == b;
    } else {
      assert (a + b)[1..] == a[1..] + b;
      WellFormedConcat(a[1..], b);
    }
  }

  /** `legacy && legacy.trim()`: a legacy note exists and is not blank. */
  predicate HasLegacy(legacy: Option<string>)
  {
    legacy.Some? && Text.Trim(legacy.value) != []
  }

  /** The note the legacy text becomes, created at time `now` (`nowIso` is its ISO form). */
  function LegacyNote(legacy: string, now: nat, nowIso: string): Note
  {
    Note("legacy-" + Text.NatToString(now), Text.Trim(legacy), nowIso)
  }

  /** The notes `loadNotes` has before sorting: the well-formed stored notes,
      preceded by the migrated legacy note when there is one, or nothing at
      all when the stored list cannot be parsed. */
  function Candidates(stored: Stored<Json>, legacy: Option<string>, now: nat, nowIso: string): seq<Note>
  {
    if stored.Unparsable? then []
    else
      var kept := if stored.Array? then WellFormed(stored.elems) else [];
      if HasLegacy(legacy) then [LegacyNote(legacy.value, now, nowIso)] + kept else kept
  }

  /** After a migrating load the stored list is rewritten and the legacy key
      removed; loading again sees exactly the same notes and migrates nothing,
      so the migration happens once. */
  lemma ReloadAfterMigration(stored: Stored<Json>, legacy: Option<string>, now: nat, nowIso: string,
                             later: nat, laterIso: string)
    requires !stored.Unparsable?
    ensures var first := Candidates(stored, legacy, now, nowIso);
      Candidates(Array(EncodeAll(first)), None, later, laterIso) == first
  {
    SaveThenLoad(Candidates(stored, legacy, now, nowIso));
  }

  /** Newest first: `createdAt` times never increase along the list. */
  predicate NewestFirst(ns: seq<Note>, timeOf: string -> int)
  {
    forall i, j :: 0 <= i < j < |ns| ==> timeOf(ns[i].createdAt) >= timeOf(ns[j].createdAt)
  }

  /** Puts `n` in front of the first note that is not newer than it. */
  function Insert(n: Note, s: seq<Note>, timeOf: string -> int): (r: seq<Note>)
    requires NewestFirst(s, timeOf)
    ensures NewestFirst(r, timeOf)
    ensures multiset(r) == multiset(s) + multiset{n}
    decreases |s|
  {
    if s == [] || timeOf(n.createdAt) >= timeOf(s[0].createdAt) then
      NewestFirstCons(n, s, timeOf);
      [n] + s
    else
      var t := Insert(n, s[1..], timeOf);
      assert s == [s[0]] + s[1..];
      InsertHeadBound(n, s, t, timeOf);
      NewestFirstCons(s[0], t, timeOf);
      [s[0]] + t
  }

  /** A note at least as new as every note of a newest-first list can go in front of it. */
  lemma NewestFirstCons(h: Note, t: seq<Note>, timeOf: string -> int)
    requires NewestFirst(t, timeOf)
    requires t == [] || timeOf(h.createdAt) >= timeOf(t[0].createdAt)
      || forall j :: 0 <= j < |t| ==> timeOf(h.createdAt) >= timeOf(t[j].createdAt)
    ensures NewestFirst([h] + t, timeOf)
  {
    var r := [h] + t;
    forall i, j | 0 <= i < j < |r| ensures timeOf(r[i].createdAt) >= timeOf(r[j].createdAt) {
      if i == 0 {
        assert r[j] == t[j - 1];
        if j > 1 {
          assert timeOf(t[0].createdAt) >= timeOf(t[j - 1].createdAt);
        }
      } else {
        assert r[i] == t[i - 1] && r[j] == t[j - 1];
      }
    }
  }

  /** The head of `s` is at least as new as everything `Insert` places after it. */
  lemma InsertHeadBound(n: Note, s: seq<Note>, t: seq<Note>, timeOf: string -> int)
    requires s != [] && NewestFirst(s, timeOf) && timeOf(n.createdAt) < timeOf(s[0].createdAt)
    requires multiset(t) == multiset(s[1..]) + multiset{n}
    ensures forall j :: 0 <= j < |t| ==> timeOf(s[0].createdAt) >= timeOf(t[j].createdAt)
  {
    forall j | 0 <= j < |t| ensures timeOf(s[0].createdAt) >= timeOf(t[j].createdAt) {
      var x := t[j];
      assert x in multiset(t);
      if x != n {
        assert x in multiset(s[1..]);
        var k :| 0 <= k < |s[1..]| && s[1..][k] == x;
        assert s[k + 1] == x;
      }
    }
  }

  /** `notes.sort((a, b) => new Date(b.createdAt) - new Date(a.createdAt))`:
      a stable sort, newest first. */
  function SortNewestFirst(s: seq<Note>, timeOf: string -> int): (r: seq<Note>)
    ensures NewestFirst(r, timeOf)
    ensures multiset(r) == multiset(s)
    decreases |s|
  {
    if s == [] then []
    else
      assert s == [s[0]] + s[1..];
      Insert(s[0], SortNewestFirst(s[1..], timeOf), timeOf)
  }

  /** A list already newest first is left as it is. */
  lemma {:induction false} SortKeepsSorted(s: seq<Note>, timeOf: string -> int)
    requires NewestFirst(s, timeOf)
    ensures SortNewestFirst(s, timeOf) == s
    decreases |s|
  {
    if s != [] {
      SortKeepsSorted(s[1..], timeOf);
    }
  }

  /** `loadNotes`. Returns the notes, whether the legacy note was migrated
      (the legacy key is then removed) and, if so, the unsorted list written
      back to storage. */
  method LoadNotes(stored: Stored<Json>, legacy: Option<string>, now: nat, nowIso: string,
                   timeOf: string -> int)
    returns (notes: seq<Note>, migrated: bool, rewritten: Option<seq<Note>>)
    ensures stored.Unparsable? ==> notes == [] && !migrated
    ensures migrated <==> !stored.Unparsable? && HasLegacy(legacy)
    ensures rewritten == if migrated then Some(Candidates(stored, legacy, now, nowIso)) else None
    ensures NewestFirst(notes, timeOf)
    ensures multiset(notes) == multiset(Candidates(stored, legacy, now, nowIso))
  {
    migrated, rewritten := false, None;
    match stored {
      case Unparsable =>
        return [], false, None;
      case Missing =>
        notes := [];
      case NotArray =>
        notes := [];
      case Array(elems) =>
        notes := WellFormed(elems);
    }
    if legacy.Some? && Text.Trim(legacy.value) != [] {
      notes := [LegacyNote(legacy.value, now, nowIso)] + notes;
      migrated := true;
      rewritten := Some(notes);
    }
    notes := SortNewestFirst(notes, timeOf);
  }
}
