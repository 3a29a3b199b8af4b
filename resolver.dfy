/** Fuzzy resolution of a user-typed fragment against the note types or
    collections the server lists: a candidate matches when its name, folded to
    ASCII lower case, contains the folded fragment; the fragment resolves to
    the id of the one candidate that matches, and to the empty string when no
    candidate or more than one candidate matches. */
module Resolver {
  import opened Text
  import opened Filtering

  datatype NoteType = NoteType(id: string, name: string)

  datatype Collection = Collection(id: string, name: string)

  /** Case-insensitive (ASCII only) substring match of a fragment in a name. */
  predicate NameMatches(fragment: string, name: string): (r: bool)
    ensures r <==> exists i :: OccursAt(Lower(fragment), Lower(name), i)
  {
    var b := Contains(Lower(name), Lower(fragment));
    assert b ==> exists i :: OccursAt(Lower(fragment), Lower(name), i);
    assert (exists i :: OccursAt(Lower(fragment), Lower(name), i)) ==> b;
    b
  }

  /** Matching ignores the ASCII case of both the fragment and the name. */
  lemma MatchIgnoresAsciiCase(fragment: string, name: string, fragment': string, name': string)
    requires Lower(fragment) == Lower(fragment') && Lower(name) == Lower(name')
    ensures NameMatches(fragment, name) == NameMatches(fragment', name')
  {
  }

  /** The empty fragment matches every name. */
  lemma EmptyFragmentMatches(name: string)
    ensures NameMatches("", name)
  {
    ContainsEmpty(Lower(name));
  }

  /** A name matches itself, whatever its case. */
  lemma NameMatchesItself(name: string)
    ensures NameMatches(name, name)
  {
    ContainsSelf(Lower(name));
  }

  /** `vec_contains`: the strings of `v` that contain `e`, ignoring ASCII
      case, each as often as `v` holds it and in the order of `v`. */
  function VecContains(v: seq<string>, e: string): (r: seq<string>)
    ensures IsSubsequence(r, v)
    ensures forall x :: x in r ==> NameMatches(e, x)
    ensures forall i :: 0 <= i < |v| && NameMatches(e, v[i]) ==> multiset(r)[v[i]] == multiset(v)[v[i]]
  {
    Filter(x => NameMatches(e, x), v)
  }

  /** `noteTypes[i]` is the one note type whose name matches the fragment. */
  ghost predicate OnlyMatch(fragment: string, noteTypes: seq<NoteType>, i: int) {
    && 0 <= i < |noteTypes|
    && NameMatches(fragment, noteTypes[i].name)
    && forall j :: 0 <= j < |noteTypes| && j != i ==> !NameMatches(fragment, noteTypes[j].name)
  }

  /** The note types whose names match the fragment, in input order. */
  function MatchingNoteTypes(noteType: string, noteTypes: seq<NoteType>): seq<NoteType> {
    Filter((nt: NoteType) => NameMatches(noteType, nt.name), noteTypes)
  }

  /** `get_final_note_type`: the id of the only note type whose name matches,
      or "" when none or several match. */
  function GetFinalNoteType(noteType: string, noteTypes: seq<NoteType>): (r: string)
    ensures forall i :: OnlyMatch(noteType, noteTypes, i) ==> r == noteTypes[i].id
    ensures (forall i :: !OnlyMatch(noteType, noteTypes, i)) ==> r == ""
  {
    var matches := MatchingNoteTypes(noteType, noteTypes);
    var p := (nt: NoteType) => NameMatches(noteType, nt.name);
    assert forall i :: OnlyMatch(noteType, noteTypes, i) ==> matches == [noteTypes[i]] by {
      forall i | OnlyMatch(noteType, noteTypes, i) ensures matches == [noteTypes[i]] {
        FilterSole(p, noteTypes, i);
      }
    }
    if |matches| == 1 then
      FilterSingleton(p, noteTypes);
      matches[0].id
    else
      ""
  }

  function AsNoteType(c: Collection): NoteType {
    NoteType(c.id, c.name)
  }

  /** The collections whose names match the fragment, in input order. */
  function MatchingCollections(collection: string, collections: seq<Collection>): seq<Collection> {
    Filter((c: Collection) => NameMatches(collection, c.name), collections)
  }

  /** `get_final_collection_id`: the same resolution as for note types, on the
      (id, name) view of each collection. */
  function GetFinalCollectionId(collection: string, collections: seq<Collection>): (r: string)
    ensures r == GetFinalNoteType(collection, Map(AsNoteType, collections))
  {
    var matches := MatchingCollections(collection, collections);
    FilterProject(AsNoteType, (c: Collection) => NameMatches(collection, c.name),
                  (nt: NoteType) => NameMatches(collection, nt.name), collections);
    if |matches| == 1 then matches[0].id else ""
  }

  /** Two or more matching note types: the fragment resolves to "", never to
      one of them. */
  lemma AmbiguousFragmentResolvesToEmpty(noteType: string, noteTypes: seq<NoteType>, i: int, j: int)
    requires 0 <= i < j < |noteTypes|
    requires NameMatches(noteType, noteTypes[i].name) && NameMatches(noteType, noteTypes[j].name)
    ensures GetFinalNoteType(noteType, noteTypes) == ""
  {
    forall k ensures !OnlyMatch(noteType, noteTypes, k) {
    }
  }

  /** The empty fragment matches every note type: it resolves only when there
      is exactly one. */
  lemma EmptyFragmentResolvesSoleCandidate(noteTypes: seq<NoteType>)
    ensures GetFinalNoteType("", noteTypes) == if |noteTypes| == 1 then noteTypes[0].id else ""
  {
    forall k | 0 <= k < |noteTypes| ensures NameMatches("", noteTypes[k].name) {
      EmptyFragmentMatches(noteTypes[k].name);
    }
    if |noteTypes| == 1 {
      assert OnlyMatch("", noteTypes, 0);
    } else if |noteTypes| > 1 {
      AmbiguousFragmentResolvesToEmpty("", noteTypes, 0, 1);
    }
  }

  /** Resolution ignores the ASCII case of the fragment and of every name. */
  lemma ResolutionIgnoresAsciiCase(noteType: string, noteTypes: seq<NoteType>,
                                   noteType': string, noteTypes': seq<NoteType>)
    requires Lower(noteType) == Lower(noteType')
    requires |noteTypes| == |noteTypes'|
    requires forall k :: 0 <= k < |noteTypes| ==>
               noteTypes[k].id == noteTypes'[k].id && Lower(noteTypes[k].name) == Lower(noteTypes'[k].name)
    ensures GetFinalNoteType(noteType, noteTypes) == GetFinalNoteType(noteType', noteTypes')
  {
    forall k | 0 <= k < |noteTypes|
      ensures NameMatches(noteType, noteTypes[k].name) == NameMatches(noteType', noteTypes'[k].name)
    {
      MatchIgnoresAsciiCase(noteType, noteTypes[k].name, noteType', noteTypes'[k].name);
    }
    forall k ensures OnlyMatch(noteType, noteTypes, k) == OnlyMatch(noteType', noteTypes', k) {
    }
  }

  /** A fragment equal to the full name of a candidate whose name no other
      candidate's name contains resolves to that candidate. */
  lemma FullNameResolves(noteTypes: seq<NoteType>, i: int)
    requires 0 <= i < |noteTypes|
    requires forall j :: 0 <= j < |noteTypes| && j != i ==> !NameMatches(noteTypes[i].name, noteTypes[j].name)
    ensures GetFinalNoteType(noteTypes[i].name, noteTypes) == noteTypes[i].id
  {
    NameMatchesItself(noteTypes[i].name);
    assert OnlyMatch(noteTypes[i].name, noteTypes, i);
  }
}
