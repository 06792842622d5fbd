/** The app's note collection: `state.notes`, `state.subjects` and the progress bar,
    with the operations that change them. */
module Collection {
  import opened Wrappers
  import opened Seqs
  import opened Text
  import opened Notes
  import opened Quiz
  import Retriever

  /** The subjects the notes are filed under. */
  function SubjectsOf(notes: seq<Note>): set<string> {
    set n | n in notes :: n.subject
  }

  /** `subjectSelect.value || 'Other'`. */
  function SubjectOrOther(selected: string): string {
    if selected == "" then "Other" else selected
  }

  /** The record `handleFile` stores for an uploaded file; the text is what the
      `FileReader` delivers and only a text file keeps it. */
  function Entry(fileName: string, selected: string, id: string, size: nat, time: int, text: string): (n: Note)
    ensures WellFormed(n)
    ensures n.kind == Txt <==> EndsWith(Lower(fileName), ".txt")
    ensures n.kind == Txt ==> Content(n) == text
    ensures n.subject != "" && (selected != "" ==> n.subject == selected)
    ensures n.name == fileName && n.id == id
  {
    var kind := KindOfName(fileName);
    Note(id, fileName, SubjectOrOther(selected), kind, size, time, if kind == Txt then Some(text) else None)
  }

  /** `state.notes.filter(x => x.id !== id)`. */
  function RemoveId(notes: seq<Note>, id: string): (r: seq<Note>)
    ensures forall n :: n in r <==> n in notes && n.id != id
    ensures |r| <= |notes|
  {
    Filter(notes, (n: Note) => n.id != id)
  }

  /** Deleting an id that no note carries changes nothing, so deleting twice is
      deleting once. */
  lemma RemoveIdAbsent(notes: seq<Note>, id: string)
    requires forall n :: n in notes ==> n.id != id
    ensures RemoveId(notes, id) == notes
  {
    FilterAll(notes, (n: Note) => n.id != id);
  }

  lemma RemoveIdTwice(notes: seq<Note>, id: string)
    ensures RemoveId(RemoveId(notes, id), id) == RemoveId(notes, id)
  {
    RemoveIdAbsent(RemoveId(notes, id), id);
  }

  /** Deleting keeps the notes' subjects among the old ones. */
  lemma RemoveIdSubjects(notes: seq<Note>, id: string)
    ensures SubjectsOf(RemoveId(notes, id)) <= SubjectsOf(notes)
  {
  }

  /** `init`: the four default subjects, then the subject of every stored note. */
  method DeriveSubjects(notes: seq<Note>) returns (subjects: set<string>)
    ensures subjects == DefaultSubjects + SubjectsOf(notes)
  {
    subjects := {};
    var defaults := ["Computer", "Science", "Math", "Other"];
    for i := 0 to |defaults|
      invariant forall w :: w in subjects <==> w in defaults[..i]
    {
      assert defaults[..i + 1] == defaults[..i] + [defaults[i]];
      subjects := subjects + {defaults[i]};
    }
    assert defaults[..|defaults|] == defaults;
    assert forall w :: w in DefaultSubjects <==> w in defaults;
    for i := 0 to |notes|
      invariant subjects == DefaultSubjects + SubjectsOf(notes[..i])
    {
      assert notes[..i + 1] == notes[..i] + [notes[i]];
      subjects := subjects + {notes[i].subject};
    }
    assert notes[..|notes|] == notes;
  }

  class Session {
    var notes: seq<Note>
    var subjects: set<string>
    /** The progress bar's width in percent. */
    var progress: nat

    /** Every note is a record upload could have made and its subject is a known
        subject, the defaults never go away, and the progress bar stays within
        0..100. */
    predicate Valid()
      reads this
    {
      (forall n :: n in notes ==> WellFormed(n))
      && DefaultSubjects <= subjects && SubjectsOf(notes) <= subjects && progress <= 100
    }

    /** `init()` over what `loadNotes()` read: None when nothing is stored or the
        stored text does not parse, which starts with no notes. The stored list is
        the one this app saved, so its records are well formed. */
    constructor(stored: Option<seq<Note>>)
      requires stored.Some? ==> forall n :: n in stored.value ==> WellFormed(n)
      ensures Valid()
      ensures notes == stored.GetOr([])
      ensures subjects == DefaultSubjects + SubjectsOf(notes)
      ensures progress == NoteProgress(|notes|)
    {
      var loaded := stored.GetOr([]);
      var derived := DeriveSubjects(loaded);
      notes := loaded;
      subjects := derived;
      progress := NoteProgress(|loaded|);
      NoteProgressBounds(|loaded|);
    }

    /** `handleFile(file)` once the file is read: the record is appended, its subject
        becomes known, and the progress follows the note count. */
    method Upload(fileName: string, selected: string, id: string, size: nat, time: int, text: string)
      requires Valid()
      modifies this
      ensures Valid()
      ensures notes == old(notes) + [Entry(fileName, selected, id, size, time, text)]
      ensures subjects == old(subjects) + {SubjectOrOther(selected)}
      ensures progress == NoteProgress(|notes|)
    {
      var entry := Entry(fileName, selected, id, size, time, text);
      notes := notes + [entry];
      subjects := subjects + {entry.subject};
      progress := NoteProgress(|notes|);
      NoteProgressBounds(|notes|);
    }

    /** The delete button: every note with that id goes, the others stay in order,
        the subjects stay as they were. */
    method Delete(id: string)
      requires Valid()
      modifies this
      ensures Valid()
      ensures notes == RemoveId(old(notes), id)
      ensures subjects == old(subjects)
      ensures progress == NoteProgress(|notes|)
    {
      RemoveIdSubjects(notes, id);
      notes := RemoveId(notes, id);
      progress := NoteProgress(|notes|);
      NoteProgressBounds(|notes|);
    }

    /** The create-subject button with what `prompt` returned; a cancelled or empty
        answer adds nothing. */
    method CreateSubject(name: Option<string>)
      requires Valid()
      modifies this
      ensures Valid()
      ensures subjects == old(subjects) + (if name.Some? && name.value != "" then {name.value} else {})
      ensures notes == old(notes) && progress == old(progress)
    {
      if name.Some? && name.value != "" {
        subjects := subjects + {name.value};
      }
    }

    /** The chat answer `generateFromNotes(q, subject)` computes from the session's
        notes; a valid session meets its demand that text notes carry content. */
    method Ask(q: string, subject: Option<string>) returns (a: Retriever.Answer)
      requires Valid()
      ensures a == Retriever.Retrieve(notes, q, subject)
    {
      a := Retriever.GenerateFromNotes(notes, q, subject);
    }

    /** `updateProgressAfterTest(percent)`. */
    method RecordTest(percent: nat)
      requires Valid()
      modifies this
      ensures Valid()
      ensures progress == ProgressAfterTest(old(progress), percent)
      ensures notes == old(notes) && subjects == old(subjects)
    {
      ProgressAfterTestBounds(progress, percent);
      progress := ProgressAfterTest(progress, percent);
    }
  }
}
