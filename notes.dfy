/** Notes with tag lists, the notebook that holds them, and the tag manager
    that tags, searches and groups the notebook's notes. */
module Notes {
  import opened Wrappers
  import opened Text

  /** A note; `created_at` and its text rendering are not modelled. */
  class Note {
    const content: string
    var tags: seq<string>

    constructor (content: string)
      ensures this.content == content && tags == []
    {
      this.content := content;
      tags := [];
    }

    /** `Note.add_tag`: a repeated tag is appended again. */
    method AddTag(tag: string)
      modifies this`tags
      ensures tags == old(tags) + [tag]
    {
      tags := tags + [tag];
    }
  }

  /** The tag lists of the notes, in order. */
  function TagsOf(notes: seq<Note>): (r: seq<seq<string>>)
    reads notes
    ensures |r| == |notes|
    ensures forall i :: 0 <= i < |notes| ==> r[i] == notes[i].tags
  {
    if notes == [] then [] else [notes[0].tags] + TagsOf(notes[1..])
  }

  /** The notes, in order, whose tag list (the matching entry of `tagLists`) contains `tag`. */
  function Select(notes: seq<Note>, tagLists: seq<seq<string>>, tag: string): (r: seq<Note>)
    requires |tagLists| == |notes|
    ensures |r| <= |notes|
  {
    if notes == [] then []
    else (if tag in tagLists[0] then [notes[0]] else []) + Select(notes[1..], tagLists[1..], tag)
  }

  /** Select keeps exactly the notes whose tag list contains the tag. */
  lemma {:induction false} SelectMembers(notes: seq<Note>, tagLists: seq<seq<string>>, tag: string)
    requires |tagLists| == |notes|
    ensures forall i :: 0 <= i < |Select(notes, tagLists, tag)| ==>
              exists k :: 0 <= k < |notes| && Select(notes, tagLists, tag)[i] == notes[k] && tag in tagLists[k]
    ensures forall k :: 0 <= k < |notes| && tag in tagLists[k] ==> notes[k] in Select(notes, tagLists, tag)
    decreases |notes|
  {
    if notes != [] {
      SelectMembers(notes[1..], tagLists[1..], tag);
      var rest := Select(notes[1..], tagLists[1..], tag);
      ghost var r := Select(notes, tagLists, tag);
      var head := if tag in tagLists[0] then [notes[0]] else [];
      assert r == head + rest;
      forall i | 0 <= i < |r| ensures exists k :: 0 <= k < |notes| && r[i] == notes[k] && tag in tagLists[k] {
        if i >= |head| {
          assert r[i] == rest[i - |head|];
          var k :| 0 <= k < |notes[1..]| && rest[i - |head|] == notes[1..][k] && tag in tagLists[1..][k];
          assert r[i] == notes[k + 1] && tag in tagLists[k + 1];
        } else {
          assert r[i] == notes[0] && tag in tagLists[0];
        }
      }
      forall k | 0 <= k < |notes| && tag in tagLists[k] ensures notes[k] in r {
        if k > 0 {
          assert notes[1..][k - 1] == notes[k] && tagLists[1..][k - 1] == tagLists[k];
        }
      }
    } else {
      assert Select(notes, tagLists, tag) == [];
    }
  }

  /** `search_tag`: the notes, in notebook order, whose tag list contains `tag`. */
  function NotesWithTag(notes: seq<Note>, tag: string): (r: seq<Note>)
    reads notes
    ensures |r| <= |notes|
    ensures forall i :: 0 <= i < |r| ==> r[i] in notes && tag in r[i].tags
    ensures forall i :: 0 <= i < |notes| && tag in notes[i].tags ==> notes[i] in r
  {
    SelectMembers(notes, TagsOf(notes), tag);
    Select(notes, TagsOf(notes), tag)
  }

  /** The search keeps notebook order: searching a concatenation concatenates the results. */
  lemma {:induction false} SelectConcat(a: seq<Note>, ta: seq<seq<string>>, b: seq<Note>, tb: seq<seq<string>>, tag: string)
    requires |ta| == |a| && |tb| == |b|
    ensures Select(a + b, ta + tb, tag) == Select(a, ta, tag) + Select(b, tb, tag)
    decreases |a|
  {
    if a == [] {
      assert a + b == b && ta + tb == tb;
    } else {
      assert (a + b)[0] == a[0] && (a + b)[1..] == a[1..] + b;
      assert (ta + tb)[0] == ta[0] && (ta + tb)[1..] == ta[1..] + tb;
      SelectConcat(a[1..], ta[1..], b, tb, tag);
      var head := if tag in ta[0] then [a[0]] else [];
      calc {
        Select(a + b, ta + tb, tag);
        head + Select(a[1..] + b, ta[1..] + tb, tag);
        head + (Select(a[1..], ta[1..], tag) + Select(b, tb, tag));
        (head + Select(a[1..], ta[1..], tag)) + Select(b, tb, tag);
      }
    }
  }

  lemma NotesWithTagConcat(a: seq<Note>, b: seq<Note>, tag: string)
    ensures NotesWithTag(a + b, tag) == NotesWithTag(a, tag) + NotesWithTag(b, tag)
  {
    assert TagsOf(a + b) == TagsOf(a) + TagsOf(b);
    SelectConcat(a, TagsOf(a), b, TagsOf(b), tag);
  }

  /** A search result depends only on whether each note carries the tag. */
  lemma {:induction false} SelectStable(notes: seq<Note>, before: seq<seq<string>>, after: seq<seq<string>>, tag: string)
    requires |before| == |notes| && |after| == |notes|
    requires forall i :: 0 <= i < |notes| ==> (tag in before[i] <==> tag in after[i])
    ensures Select(notes, before, tag) == Select(notes, after, tag)
    decreases |notes|
  {
    if notes != [] {
      SelectStable(notes[1..], before[1..], after[1..], tag);
    }
  }

  /** Some note of the list carries the tag. */
  predicate Tagged(notes: seq<Note>, tag: string)
    reads notes
  {
    exists i :: 0 <= i < |notes| && tag in notes[i].tags
  }

  predicate StrictlyAscending(s: seq<string>)
  {
    forall i, j :: 0 <= i < j < |s| ==> LexLess(s[i], s[j])
  }

  /** Puts `t` into a strictly ascending list unless it is there already. */
  function InsertSorted(s: seq<string>, t: string): (r: seq<string>)
    requires StrictlyAscending(s)
    ensures StrictlyAscending(r)
    ensures forall x :: x in r <==> x in s || x == t
  {
    if s == [] then [t]
    else if t == s[0] then s
    else if LexLess(t, s[0]) then
      assert forall j :: 0 < j < |s| ==> LexLess(t, s[j]) by {
        forall j | 0 < j < |s| ensures LexLess(t, s[j]) { LexTransitive(t, s[0], s[j]); }
      }
      [t] + s
    else
      LexTotal(t, s[0]);
      var rest := InsertSorted(s[1..], t);
      assert forall x :: x in rest ==> LexLess(s[0], x);
      [s[0]] + rest
  }

  function InsertAll(s: seq<string>, tags: seq<string>): (r: seq<string>)
    requires StrictlyAscending(s)
    ensures StrictlyAscending(r)
    ensures forall x :: x in r <==> x in s || x in tags
    decreases |tags|
  {
    if tags == [] then s else InsertAll(InsertSorted(s, tags[0]), tags[1..])
  }

  /** `sorted(set(tag for note in notes for tag in note.tags))`. */
  function SortedTags(notes: seq<Note>): (r: seq<string>)
    reads notes
    ensures StrictlyAscending(r)
    ensures forall t :: t in r <==> Tagged(notes, t)
  {
    if notes == [] then []
    else
      var r := InsertAll(SortedTags(notes[1..]), notes[0].tags);
      assert forall t :: Tagged(notes, t) <==> t in notes[0].tags || Tagged(notes[1..], t) by {
        forall t ensures Tagged(notes, t) <==> t in notes[0].tags || Tagged(notes[1..], t) {
          if Tagged(notes, t) {
            var i :| 0 <= i < |notes| && t in notes[i].tags;
            if i > 0 { assert notes[1..][i - 1] == notes[i]; }
          }
          if Tagged(notes[1..], t) {
            var i :| 0 <= i < |notes[1..]| && t in notes[1..][i].tags;
            assert notes[i + 1] == notes[1..][i];
          }
        }
      }
      r
  }

  /** Pairs each key with the notes carrying it. */
  function Groups(keys: seq<string>, notes: seq<Note>): (r: seq<(string, seq<Note>)>)
    reads notes
    ensures |r| == |keys|
    ensures forall i :: 0 <= i < |keys| ==> r[i].0 == keys[i]
    ensures forall i :: 0 <= i < |keys| ==> r[i].1 == NotesWithTag(notes, keys[i])
  {
    if keys == [] then [] else [(keys[0], NotesWithTag(notes, keys[0]))] + Groups(keys[1..], notes)
  }

  /** `Tag.sort_tags` on the notebook's notes: the dictionary, in insertion
      order, from each distinct tag in ascending order to `search_tag` of it. */
  function SortTags(notes: seq<Note>): (r: seq<(string, seq<Note>)>)
    reads notes
    ensures forall i, j :: 0 <= i < j < |r| ==> LexLess(r[i].0, r[j].0)
    ensures forall t :: (exists i :: 0 <= i < |r| && r[i].0 == t) <==> Tagged(notes, t)
    ensures forall i :: 0 <= i < |r| ==> r[i].1 == NotesWithTag(notes, r[i].0)
    ensures forall i :: 0 <= i < |r| ==> r[i].1 != []
  {
    var keys := SortedTags(notes);
    var r := Groups(keys, notes);
    forall i | 0 <= i < |r| ensures r[i].1 != [] {
      assert keys[i] in keys;
      var k :| 0 <= k < |notes| && keys[i] in notes[k].tags;
      assert notes[k] in r[i].1;
    }
    forall t | Tagged(notes, t) ensures exists i :: 0 <= i < |r| && r[i].0 == t {
      assert t in keys;
      var i :| 0 <= i < |keys| && keys[i] == t;
      assert r[i].0 == t;
    }
    r
  }

  class Notebook {
    var notes: seq<Note>

    /** Every note object appears once: `add_note` always appends a new one. */
    ghost predicate Valid()
      reads this
    {
      forall i, j :: 0 <= i < j < |notes| ==> notes[i] != notes[j]
    }

    constructor ()
      ensures Valid() && notes == []
    {
      notes := [];
    }

    /** `add_note`: appends a new untagged note. */
    method AddNote(content: string)
      requires Valid()
      modifies this`notes
      ensures Valid()
      ensures |notes| == |old(notes)| + 1 && notes[..|old(notes)|] == old(notes)
      ensures fresh(notes[|old(notes)|])
      ensures notes[|old(notes)|].content == content && notes[|old(notes)|].tags == []
    {
      var note := new Note(content);
      notes := notes + [note];
    }

    /** `delete_note`: a 1-based position in range removes exactly that note;
        any other number changes nothing. */
    method DeleteNote(noteId: int) returns (deleted: bool)
      requires Valid()
      modifies this`notes
      ensures Valid()
      ensures deleted <==> 1 <= noteId <= |old(notes)|
      ensures deleted ==> notes == old(notes)[..noteId - 1] + old(notes)[noteId..]
      ensures !deleted ==> notes == old(notes)
    {
      deleted := 1 <= noteId <= |notes|;
      if deleted {
        notes := notes[..noteId - 1] + notes[noteId..];
      }
    }

    /** `load_notes`: the loaded list, an empty one when the file is missing,
        and the previous notes on any other failure. */
    method LoadNotes(outcome: LoadOutcome<seq<Note>>)
      requires outcome.Loaded? ==> forall i, j :: 0 <= i < j < |outcome.value| ==> outcome.value[i] != outcome.value[j]
      requires Valid()
      modifies this`notes
      ensures Valid()
      ensures notes == match outcome
                       case Loaded(v) => v
                       case FileMissing => []
                       case LoadFailed => old(notes)
    {
      match outcome
      case Loaded(v) => notes := v;
      case FileMissing => notes := [];
      case LoadFailed =>
    }
  }

  /** The tag manager over a notebook. */
  class Tag {
    const notebook: Notebook

    constructor (notebook: Notebook)
      ensures this.notebook == notebook
    {
      this.notebook := notebook;
    }

    /** `Tag.add_tag`: a 1-based position in range appends the tag to that note
        only; searches for any other tag give what they gave before. */
    method AddTag(noteIndex: int, tag: string) returns (added: bool)
      requires notebook.Valid()
      modifies notebook.notes
      ensures notebook.notes == old(notebook.notes)
      ensures added <==> 1 <= noteIndex <= |notebook.notes|
      ensures added ==> notebook.notes[noteIndex - 1].tags == old(notebook.notes[noteIndex - 1].tags) + [tag]
      ensures forall j :: 0 <= j < |notebook.notes| && !(added && j == noteIndex - 1) ==>
                notebook.notes[j].tags == old(notebook.notes[j].tags)
      ensures added ==> notebook.notes[noteIndex - 1] in NotesWithTag(notebook.notes, tag)
      ensures forall t :: t != tag ==> NotesWithTag(notebook.notes, t) == old(NotesWithTag(notebook.notes, t))
    {
      ghost var before := TagsOf(notebook.notes);
      added := 1 <= noteIndex <= |notebook.notes|;
      if added {
        var note := notebook.notes[noteIndex - 1];
        note.AddTag(tag);
      }
      forall t | t != tag ensures NotesWithTag(notebook.notes, t) == old(NotesWithTag(notebook.notes, t)) {
        SelectStable(notebook.notes, before, TagsOf(notebook.notes), t);
      }
    }
  }

  lemma ExampleTags(n1: Note, n2: Note, n3: Note)
    requires n1.tags == ["b"] && n2.tags == ["a"] && n3.tags == ["a", "b"]
    ensures SortedTags([n1, n2, n3]) == ["a", "b"]
  {
    var notes := [n1, n2, n3];
    assert LexLess("a", "b") && !LexLess("b", "a");
    assert InsertSorted(["a"], "b") == ["a", "b"];
    assert InsertSorted(["a", "b"], "a") == ["a", "b"];
    assert InsertSorted(["a", "b"], "b") == ["a", "b"];
    assert notes[1..] == [n2, n3] && notes[1..][1..] == [n3] && [n3][1..] == [];
    assert SortedTags([n3]) == ["a", "b"];
    assert SortedTags([n2, n3]) == ["a", "b"];
  }

  lemma ExampleSelect(n1: Note, n2: Note, n3: Note)
    ensures Select([n1, n2, n3], [["b"], ["a"], ["a", "b"]], "a") == [n2, n3]
    ensures Select([n1, n2, n3], [["b"], ["a"], ["a", "b"]], "b") == [n1, n3]
  {
    var notes := [n1, n2, n3];
    var lists := [["b"], ["a"], ["a", "b"]];
    assert notes[1..] == [n2, n3] && notes[1..][1..] == [n3] && [n3][1..] == [];
    assert lists[1..] == [["a"], ["a", "b"]] && lists[1..][1..] == [["a", "b"]] && [["a", "b"]][1..] == [];
    var empty := Select([], [], "a");
    var emptyB := Select([], [], "b");
    assert empty == [] && emptyB == [];
    var a3 := Select([n3], [["a", "b"]], "a");
    assert a3 == [n3] + empty;
    var b3 := Select([n3], [["a", "b"]], "b");
    assert b3 == [n3] + emptyB;
    var a2 := Select([n2, n3], lists[1..], "a");
    assert a2 == [n2] + a3;
    var b2 := Select([n2, n3], lists[1..], "b");
    assert b2 == [] + b3;
    assert Select(notes, lists, "a") == [] + a2;
    assert Select(notes, lists, "b") == [n1] + b2;
  }

  lemma ExampleSearch(n1: Note, n2: Note, n3: Note)
    requires n1.tags == ["b"] && n2.tags == ["a"] && n3.tags == ["a", "b"]
    ensures NotesWithTag([n1, n2, n3], "a") == [n2, n3]
    ensures NotesWithTag([n1, n2, n3], "b") == [n1, n3]
  {
    assert TagsOf([n1, n2, n3]) == [["b"], ["a"], ["a", "b"]];
    ExampleSelect(n1, n2, n3);
  }

  /** Three notes tagged ["b"], ["a"] and ["a", "b"] group as "a" -> notes 2
      and 3, "b" -> notes 1 and 3. */
  lemma SortTagsExample(n1: Note, n2: Note, n3: Note)
    requires n1.tags == ["b"] && n2.tags == ["a"] && n3.tags == ["a", "b"]
    ensures SortTags([n1, n2, n3]) == [("a", [n2, n3]), ("b", [n1, n3])]
  {
    ExampleTags(n1, n2, n3);
    ExampleSearch(n1, n2, n3);
    assert ["a", "b"][1..] == ["b"] && ["b"][1..] == [];
  }
}
