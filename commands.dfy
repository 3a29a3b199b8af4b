/** The two command handlers of the client with their I/O taken out: the
    `note` command, which turns its arguments and the reference data fetched
    from the server into the body it posts to `api/note`, and `config
    --update`, which turns the stored configuration and the line typed at the
    prompt into the configuration written back. */
module Commands {
  import opened Text
  import opened Filtering
  import opened Resolver

  datatype Option<T> = None | Some(value: T) {
    /** `unwrap_or`: the carried value when there is one, else the default. */
    function GetOr(default: T): (r: T)
      ensures Some? ==> r == value
      ensures None? ==> r == default
    {
      match this
      case Some(v) => v
      case None => default
    }
  }

  /** The defaults the server reports for a note without `-n` or `-c`. */
  datatype Defaults = Defaults(defaultCollection: string, defaultNoteType: string)

  /** The contents of the per-user configuration file. */
  datatype Config = Config(url: string)

  /** The record serialised as the body of the POST to `api/note`. */
  datatype NotePostBody = NotePostBody(body: string, noteType: string, collectionId: string, modifiers: seq<string>)

  /** The `note` command: the message words joined with single spaces, the
      `-n` and `-c` fragments (or the server defaults when absent) resolved
      against the note types and collections, and no modifiers.  A fragment
      that does not resolve leaves an empty id in the posted body. */
  function AssembleNote(message: seq<string>, noteTypeArg: Option<string>, collectionArg: Option<string>,
                        noteTypes: seq<NoteType>, collections: seq<Collection>, defaults: Defaults)
    : (r: NotePostBody)
    ensures r.modifiers == []
    ensures r.body == JoinWithSpace(message)
    ensures |message| == 0 ==> r.body == ""
    ensures |message| == 1 ==> r.body == message[0]
    ensures |message| >= 1 && (forall k :: 0 <= k < |message| ==> ' ' !in message[k]) ==>
              SplitAtSpace(r.body) == message
    ensures var f := noteTypeArg.GetOr(defaults.defaultNoteType);
            && (forall i :: OnlyMatch(f, noteTypes, i) ==> r.noteType == noteTypes[i].id)
            && ((forall i :: !OnlyMatch(f, noteTypes, i)) ==> r.noteType == "")
    ensures var f := collectionArg.GetOr(defaults.defaultCollection);
            var cs := Map(AsNoteType, collections);
            && (forall i :: OnlyMatch(f, cs, i) ==> r.collectionId == collections[i].id)
            && ((forall i :: !OnlyMatch(f, cs, i)) ==> r.collectionId == "")
  {
    var body := JoinWithSpace(message);
    assert |message| >= 1 && (forall k :: 0 <= k < |message| ==> ' ' !in message[k]) ==>
             SplitAtSpace(body) == message by {
      if |message| >= 1 && (forall k :: 0 <= k < |message| ==> ' ' !in message[k]) {
        SplitJoin(message);
      }
    }
    NotePostBody(body, GetFinalNoteType(noteTypeArg.GetOr(defaults.defaultNoteType), noteTypes),
                 GetFinalCollectionId(collectionArg.GetOr(defaults.defaultCollection), collections), [])
  }

  /** `config --update`: the configuration written back after the user typed
      `line`.  It starts from the stored configuration, or from an empty URL
      when the stored file does not parse (`None`); a blank line keeps that URL,
      any other line replaces it with the line stripped of surrounding
      whitespace. */
  function UpdateConfig(stored: Option<Config>, line: string): (r: Config)
    ensures AllWhitespace(line) ==> r == stored.GetOr(Config(""))
    ensures !AllWhitespace(line) ==> r.url != "" && IsTrimmingOf(r.url, line)
  {
    var config := stored.GetOr(Config(""));
    var newUrl := Trim(line);
    if newUrl == "" then config else Config(newUrl)
  }

  /** The newline `read_line` leaves at the end of the line changes nothing. */
  lemma UpdateIgnoresLineTerminator(stored: Option<Config>, line: string)
    ensures UpdateConfig(stored, line + "\n") == UpdateConfig(stored, line)
  {
    TrimIgnoresTrailingWhitespace(line, "\n");
  }

  /** A URL typed without surrounding whitespace, followed by any whitespace,
      is stored exactly as typed. */
  lemma UpdateStoresTypedUrl(stored: Option<Config>, url: string, w: string)
    requires url != [] && !IsWhitespace(url[0]) && !IsWhitespace(url[|url| - 1])
    requires AllWhitespace(w)
    ensures UpdateConfig(stored, url + w).url == url
  {
    var line := url + w;
    assert line[0..|url|] == url && line[..0] == [] && line[|url|..] == w;
    assert TrimmedAt(url, line, 0);
    TrimmingIsUnique(url, line);
  }

  /** The invocation `note -n Tas -c Wor hello world` against one note type
      "Task" (id "1") and one collection "Work" (id "9") posts
      "hello world" with those ids and no modifiers. */
  lemma NoteExample()
    ensures AssembleNote(["hello", "world"], Some("Tas"), Some("Wor"),
                         [NoteType("1", "Task")], [Collection("9", "Work")], Defaults("Work", "Task"))
            == NotePostBody("hello world", "1", "9", [])
  {
    ExampleNoteType();
    ExampleCollection();
    assert JoinWithSpace(["hello", "world"]) == "hello world";
  }

  lemma ExampleNoteType()
    ensures GetFinalNoteType("Tas", [NoteType("1", "Task")]) == "1"
  {
    assert Lower("Tas") == "tas" && Lower("Task") == "task";
    assert OccursAt("tas", "task", 0);
    assert OnlyMatch("Tas", [NoteType("1", "Task")], 0);
  }

  lemma ExampleCollection()
    ensures GetFinalCollectionId("Wor", [Collection("9", "Work")]) == "9"
  {
    assert Lower("Wor") == "wor" && Lower("Work") == "work";
    assert OccursAt("wor", "work", 0);
    assert Map(AsNoteType, [Collection("9", "Work")]) == [NoteType("9", "Work")];
    assert OnlyMatch("Wor", [NoteType("9", "Work")], 0);
  }

  /** Without `-n`, a fragment "a" that both "Task" and "Idea" contain is
      ambiguous: the note is posted with an empty note type. */
  lemma AmbiguousDefaultExample()
    ensures AssembleNote(["x"], None, None, [NoteType("1", "Task"), NoteType("2", "Idea")], [],
                         Defaults("", "a")).noteType == ""
  {
    assert Lower("a") == "a" && Lower("Task") == "task" && Lower("Idea") == "idea";
    assert OccursAt("a", "task", 1) && OccursAt("a", "idea", 3);
    AmbiguousFragmentResolvesToEmpty("a", [NoteType("1", "Task"), NoteType("2", "Idea")], 0, 1);
  }
}
