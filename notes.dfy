/** A note record as the app stores it: `{id, name, subject, type, size, uploadedAt}`
    plus `content` for text notes, and the pools of notes the engine reads. */
module Notes {
  import opened Wrappers
  import opened Seqs
  import opened Text

  datatype NoteKind = Txt | Pdf

  datatype Note = Note(
    id: string,
    name: string,
    subject: string,
    kind: NoteKind,
    size: nat,
    uploadedAt: int,
    content: Option<string>)

  /** What upload produces: text notes carry their content, PDF notes only metadata. */
  predicate WellFormed(n: Note) {
    n.kind == Txt <==> n.content.Some?
  }

  /** `n.content`, with an absent content read as the empty string, as `join` does. */
  function Content(n: Note): string {
    n.content.GetOr("")
  }

  /** `n.type === 'txt' && n.content`: a text note whose content is non-empty. */
  predicate HasText(n: Note) {
    n.kind == Txt && n.content.Some? && n.content.value != ""
  }

  /** The subjects every session starts with. */
  const DefaultSubjects: set<string> := {"Computer", "Science", "Math", "Other"}

  /** `name.toLowerCase().endsWith('.txt') ? 'txt' : 'pdf'`. */
  function KindOfName(name: string): (k: NoteKind)
    ensures k == Txt <==> EndsWith(Lower(name), ".txt")
  {
    if EndsWith(Lower(name), ".txt") then Txt else Pdf
  }

  lemma KindOfNameExamples()
    ensures KindOfName("Bio.TXT") == Txt
    ensures KindOfName("slides.pdf") == Pdf
    ensures KindOfName("txt") == Pdf
  {
    assert Lower("Bio.TXT")[3..] == ".txt";
    assert Lower("slides.pdf")[6..] == ".pdf";
  }

  /** `notes.filter(n => n.type === 'txt' && n.content)`. */
  function TextNotes(notes: seq<Note>): (r: seq<Note>)
    ensures forall n :: n in r <==> n in notes && HasText(n)
  {
    Filter(notes, HasText)
  }

  function Contents(notes: seq<Note>): (r: seq<string>)
    ensures |r| == |notes|
    ensures forall k :: 0 <= k < |r| ==> r[k] == Content(notes[k])
  {
    seq(|notes|, k requires 0 <= k < |notes| => Content(notes[k]))
  }

  /** `.map(n => n.content).join(sep)` over the notes with text. */
  function TextPool(notes: seq<Note>, sep: string): string {
    Join(Contents(TextNotes(notes)), sep)
  }

  lemma JoinEmpty(parts: seq<string>, sep: string)
    requires sep != ""
    ensures Join(parts, sep) == "" <==> |parts| == 0 || (|parts| == 1 && parts[0] == "")
  {
    if |parts| >= 2 {
      assert |Join(parts, sep)| >= |sep|;
    }
  }

  /** The text pool is empty exactly when no note has text: every pooled content is
      non-empty, so joining at least one of them gives a non-empty string. */
  lemma {:induction false} TextPoolEmpty(notes: seq<Note>, sep: string)
    requires sep != ""
    ensures TextPool(notes, sep) == "" <==> forall n :: n in notes ==> !HasText(n)
  {
    var t := TextNotes(notes);
    var cs := Contents(t);
    JoinEmpty(cs, sep);
    if t != [] {
      assert HasText(t[0]);
      assert cs[0] != "";
    }
  }
}
