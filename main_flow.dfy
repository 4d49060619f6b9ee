/**
 * The control flow of `main`: ask for studio URLs until one yields a video
 * ID, then load the title and description and build the update body.
 * Console input is a sequence of the lines the operator types.
 */
module MainFlow {
  import opened Wrappers
  import opened Text
  import opened Extractor
  import opened FileLoader
  import opened VideoUpdater

  /** One round of the prompt loop: strip the line, then extract. */
  function Attempt(line: string): (r: Option<string>)
    ensures r == Extract(line)
  {
    ExtractOfStripped(line);
    Extract(Strip(line))
  }

  /** No line of `lines` yields a video ID. */
  predicate AllRejected(lines: seq<string>) {
    forall k :: 0 <= k < |lines| ==> Attempt(lines[k]).None?
  }

  /** What the prompt loop does with `lines`: it reads `consumed` of them and
      stops with `id` at the first line that yields one; when every line is
      rejected it has read them all, and `id == None` says only that no line
      read so far yields an ID. */
  predicate IsPromptOutcome(lines: seq<string>, id: Option<string>, consumed: nat) {
    consumed <= |lines|
    && (id.None? ==> consumed == |lines| && AllRejected(lines))
    && (id.Some? ==> 0 < consumed && AllRejected(lines[..consumed - 1])
                     && id == Attempt(lines[consumed - 1]))
  }

  /** The `while True` loop of `main` over the lines typed so far. */
  method PromptForVideoId(lines: seq<string>) returns (id: Option<string>, consumed: nat)
    ensures IsPromptOutcome(lines, id, consumed)
  {
    id, consumed := None, 0;
    while consumed < |lines|
      invariant consumed <= |lines|
      invariant AllRejected(lines[..consumed])
      invariant id == None
    {
      var url := Strip(lines[consumed]);
      var videoId := Extract(url);
      consumed := consumed + 1;
      if videoId.Some? {
        id := videoId;
        break;
      }
      assert lines[..consumed] == lines[..consumed - 1] + [lines[consumed - 1]];
    }
    if id.None? {
      assert lines[..consumed] == lines;
    }
  }

  /** A rejected prefix, line by line. */
  lemma RejectedLines(lines: seq<string>, n: nat)
    requires n <= |lines| && AllRejected(lines[..n])
    ensures forall k :: 0 <= k < n ==> Attempt(lines[k]).None?
  {
    assert forall k :: 0 <= k < n ==> lines[..n][k] == lines[k];
  }

  /** The outcome of the loop is determined by the lines. */
  lemma PromptOutcomeUnique(lines: seq<string>, id1: Option<string>, c1: nat, id2: Option<string>, c2: nat)
    requires IsPromptOutcome(lines, id1, c1) && IsPromptOutcome(lines, id2, c2)
    ensures id1 == id2 && c1 == c2
  {
    RejectedLines(lines, if id1.Some? then c1 - 1 else c1);
    RejectedLines(lines, if id2.Some? then c2 - 1 else c2);
  }

  /** Liveness: rejected lines followed by a good one make the loop stop right
      after the good one, with its ID, whatever comes later. */
  lemma PromptStopsAtFirstValid(bad: seq<string>, good: string, rest: seq<string>,
                                id: Option<string>, consumed: nat)
    requires AllRejected(bad) && Attempt(good).Some?
    requires IsPromptOutcome(bad + [good] + rest, id, consumed)
    ensures consumed == |bad| + 1 && id == Attempt(good)
  {
    var lines := bad + [good] + rest;
    assert lines[..|bad|] == bad;
    assert lines[|bad|] == good;
    PromptOutcomeUnique(lines, id, consumed, Attempt(good), |bad| + 1);
  }

  /** The loop never stops on rejected lines alone. */
  lemma PromptNeverStopsOnInvalid(lines: seq<string>, id: Option<string>, consumed: nat)
    requires AllRejected(lines) && IsPromptOutcome(lines, id, consumed)
    ensures id == None && consumed == |lines|
  {
  }

  /** The loop reads nothing past the line it stops at. */
  lemma PromptIgnoresLaterLines(lines: seq<string>, more: seq<string>, id: Option<string>, consumed: nat)
    requires IsPromptOutcome(lines, id, consumed) && id.Some?
    ensures IsPromptOutcome(lines[..consumed] + more, id, consumed)
  {
    var lines' := lines[..consumed] + more;
    assert lines'[..consumed - 1] == lines[..consumed - 1];
    assert lines'[consumed - 1] == lines[consumed - 1];
  }

  /** The ID the loop returns is a well-formed token found in the operator's line. */
  lemma PromptYieldsToken(lines: seq<string>, t: string, consumed: nat)
    requires IsPromptOutcome(lines, Some(t), consumed)
    ensures |t| > 0 && forall k :: 0 <= k < |t| ==> IsTokenChar(t[k])
    ensures Extract(lines[consumed - 1]) == Some(t)
  {
    ExtractedTokenWellFormed(Strip(lines[consumed - 1]), t);
    ExtractOfStripped(lines[consumed - 1]);
  }

  /** The `try` block of `main`, with authentication and the API call left out:
      load `title.txt`, then `description.txt`, then build the body that
      `update_video` sends; the first empty file aborts. */
  function PrepareUpdate(videoId: string, titleContent: string, descriptionContent: string)
    : (r: Result<UpdateRequest, LoadError>)
    ensures r.Success? <==> !AllSpace(titleContent) && !AllSpace(descriptionContent)
    ensures AllSpace(titleContent) ==> r == Failure(EmptyContent("title.txt"))
    ensures (!AllSpace(titleContent) && AllSpace(descriptionContent))
              ==> r == Failure(EmptyContent("description.txt"))
    ensures r.Success? ==> r.value == BuildRequest(videoId, Strip(titleContent), Strip(descriptionContent))
  {
    match LoadTextFile("title.txt", titleContent)
    case Failure(e) => Failure(e)
    case Success(title) =>
      match LoadTextFile("description.txt", descriptionContent)
      case Failure(e) => Failure(e)
      case Success(description) => Success(BuildRequest(videoId, title, description))
  }

  /** A body is only ever built from non-empty, trimmed texts, broadcast to every language. */
  lemma PreparedRequestWellFormed(videoId: string, titleContent: string, descriptionContent: string)
    requires PrepareUpdate(videoId, titleContent, descriptionContent).Success?
    ensures var r := PrepareUpdate(videoId, titleContent, descriptionContent).value;
            r.id == videoId && r.snippet.title != [] && r.snippet.description != []
            && IsTrimmed(r.snippet.title) && IsTrimmed(r.snippet.description)
            && IsUniformBroadcast(r)
  {
  }

  /** The example run: `title.txt` holding "My Title" and `description.txt` holding "My Desc\n". */
  lemma ExampleRun()
    ensures PrepareUpdate("krtVKlwt-1o", "My Title", "My Desc\n")
            == Success(UpdateRequest("krtVKlwt-1o", Snippet("My Title", "My Desc", "22", "en"),
                                     Localizations("My Title", "My Desc")))
  {
    var title, description := "My Title", "My Desc\n";
    StripUnique([], title, []);
    assert [] + title + [] == title;
    StripUnique([], "My Desc", "\n");
    assert [] + "My Desc" + "\n" == description;
  }
}
