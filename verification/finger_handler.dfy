/**
 * The per-connection Finger handler: it buffers inbound chunks, and when a
 * chunk ends with CR LF it normalises the whole buffer into a user name,
 * looks the user up and answers with one CR LF-terminated response.
 */
module Finger {
  import opened Wrappers
  import opened Query
  import opened UserStore

  const CRLF: string := "\r\n"

  /** The canned answer to an empty query, with the wording the server sends ("supporter"). */
  const EMPTY_QUERY_ERROR: string := "[error]\r\nonly single user look-up is supporter at the moment."

  predicate HasSuffix(s: string, suffix: string)
  {
    |suffix| <= |s| && s[|s| - |suffix|..] == suffix
  }

  /** The configured user directory with one trailing '/' removed, if it has one. */
  function StripTrailingSlash(directory: string): (r: string)
    ensures HasSuffix(directory, "/") ==> r + "/" == directory
    ensures !HasSuffix(directory, "/") ==> r == directory
  {
    if HasSuffix(directory, "/") then directory[..|directory| - 1] else directory
  }

  /** Only one slash goes: "a//" becomes "a/". */
  lemma StripTrailingSlashOnce(d: string)
    ensures StripTrailingSlash(d + "//") == d + "/"
    ensures HasSuffix(StripTrailingSlash(d + "//"), "/")
  {
    var s := d + "//";
    assert s[|s| - 1..] == "/";
    assert s[..|s| - 1] == d + "/";
  }

  /** The text of an inbound chunk; a chunk that cannot be decoded counts as CR LF. */
  function Decode(chunk: Option<string>): string
  {
    chunk.GetOr(CRLF)
  }

  /** A decodable chunk is taken verbatim; an undecodable one is exactly CR LF, so it completes the line. */
  lemma DecodeChunk(chunk: Option<string>)
    ensures chunk.Some? ==> Decode(chunk) == chunk.value
    ensures chunk.None? ==> Decode(chunk) == CRLF
    ensures chunk.None? ==> HasSuffix(Decode(chunk), CRLF)
  {
    assert chunk.None? ==> Decode(chunk) == CRLF;
  }

  /** Everything the chunks add to the buffer, in arrival order. */
  function Join(chunks: seq<Option<string>>): string
    decreases |chunks|
  {
    if chunks == [] then [] else Join(chunks[..|chunks| - 1]) + Decode(chunks[|chunks| - 1])
  }

  /** The answer computed from a complete buffer: the canned error for an empty query, else the user's record. */
  function Answer(fs: FileSystem, directory: string, received: string): string
  {
    var query := Normalize(received);
    if query == [] then EMPTY_QUERY_ERROR else ReadFile(fs, directory, query)
  }

  /**
   * An empty query gets the canned error; any other query gets the record
   * ReadFile gives for it: the file's text verbatim when it reads as text,
   * the sentinel otherwise.
   */
  lemma AnswerCases(fs: FileSystem, directory: string, received: string)
    ensures Normalize(received) == [] ==> Answer(fs, directory, received) == EMPTY_QUERY_ERROR
    ensures var query := Normalize(received);
            query != [] ==> Answer(fs, directory, received) == ReadFile(fs, directory, query)
    ensures var query := Normalize(received);
            query != [] && FileExists(fs, directory, query) && fs[UserPath(directory, query)].Some? ==>
              Answer(fs, directory, received) == fs[UserPath(directory, query)].value
    ensures var query, r := Normalize(received), Answer(fs, directory, received);
            query != [] ==> (r == USER_ERROR || (FileExists(fs, directory, query) && fs[UserPath(directory, query)] == Some(r)))
    ensures var query := Normalize(received);
            query != [] && !FileExists(fs, directory, query) ==> Answer(fs, directory, received) == USER_ERROR
  {
  }

  /** The mutable part of a handler: the input buffer and the last answer. */
  datatype Session = Session(received: string, answer: string)

  const FRESH: Session := Session("", "")

  /**
   * One inbound read event: the state after it and the response written, if
   * any. This is the specification that FingerHandler.ChannelRead implements.
   */
  function Step(st: Session, directory: string, fs: FileSystem, chunk: Option<string>): (r: (Session, Option<string>))
    ensures r.0.received == st.received + Decode(chunk)
    ensures r.1.Some? <==> HasSuffix(Decode(chunk), CRLF)
    ensures chunk.None? ==> r.1.Some?
    ensures r.1.None? ==> r.0.answer == st.answer
    ensures r.1.Some? ==> r.0.answer == Answer(fs, directory, r.0.received) && r.1.value == r.0.answer + CRLF
    ensures r.1.Some? ==> HasSuffix(r.1.value, CRLF)
  {
    var text := Decode(chunk);
    var received := st.received + text;
    if HasSuffix(text, CRLF) then
      var answer := Answer(fs, directory, received);
      var response := answer + CRLF;
      assert response[|response| - 2..] == CRLF;
      (Session(received, answer), Some(response))
    else
      (Session(received, st.answer), None)
  }

  /** A sequence of read events on one connection, with the response to each. */
  function Run(st: Session, directory: string, fs: FileSystem, chunks: seq<Option<string>>): (r: (Session, seq<Option<string>>))
    ensures |r.1| == |chunks|
    ensures r.0.received == st.received + Join(chunks)
    ensures forall i :: 0 <= i < |chunks| ==> (r.1[i].Some? <==> HasSuffix(Decode(chunks[i]), CRLF))
    ensures forall i :: 0 <= i < |chunks| && r.1[i].Some? ==> HasSuffix(r.1[i].value, CRLF)
    decreases |chunks|
  {
    if chunks == [] then (st, [])
    else
      var front := chunks[..|chunks| - 1];
      var before := Run(st, directory, fs, front);
      var after := Step(before.0, directory, fs, chunks[|chunks| - 1]);
      assert forall i :: 0 <= i < |front| ==> front[i] == chunks[i];
      (after.0, before.1 + [after.1])
  }

  /**
   * Every response a connection writes is the answer computed from the whole
   * buffer as it stands after the chunk that triggered it, followed by CR LF.
   */
  lemma {:induction false} RunResponses(st: Session, directory: string, fs: FileSystem, chunks: seq<Option<string>>)
    ensures var r := Run(st, directory, fs, chunks);
            forall i :: 0 <= i < |chunks| && r.1[i].Some? ==>
              r.1[i].value == Answer(fs, directory, st.received + Join(chunks[..i + 1])) + CRLF
    decreases |chunks|
  {
    if chunks != [] {
      var n := |chunks|;
      var front := chunks[..n - 1];
      RunResponses(st, directory, fs, front);
      forall i | 0 <= i < n && Run(st, directory, fs, chunks).1[i].Some?
        ensures Run(st, directory, fs, chunks).1[i].value == Answer(fs, directory, st.received + Join(chunks[..i + 1])) + CRLF
      {
        if i < n - 1 {
          RunResponseEarlier(st, directory, fs, chunks, i);
        } else {
          RunResponseLast(st, directory, fs, chunks);
        }
      }
    }
  }

  /**
   * A response before the last chunk is the one the shorter run gave, and
   * the buffer it was answered from is the same.
   */
  lemma RunResponseEarlier(st: Session, directory: string, fs: FileSystem, chunks: seq<Option<string>>, i: nat)
    requires i < |chunks| - 1
    ensures Run(st, directory, fs, chunks).1[i] == Run(st, directory, fs, chunks[..|chunks| - 1]).1[i]
    ensures Join(chunks[..|chunks| - 1][..i + 1]) == Join(chunks[..i + 1])
  {
    RunKeepsEarlier(st, directory, fs, chunks, i);
    PrefixOfPrefix(chunks, |chunks| - 1, i + 1);
  }

  /** A prefix of a prefix is a prefix. */
  lemma PrefixOfPrefix<T>(s: seq<T>, m: nat, k: nat)
    requires k <= m <= |s|
    ensures s[..m][..k] == s[..k]
  {
  }

  /** A further chunk leaves the earlier responses as they were. */
  lemma RunKeepsEarlier(st: Session, directory: string, fs: FileSystem, chunks: seq<Option<string>>, i: nat)
    requires i < |chunks| - 1
    ensures Run(st, directory, fs, chunks).1[i] == Run(st, directory, fs, chunks[..|chunks| - 1]).1[i]
  {
  }

  /** The response to the last chunk is answered from the whole buffer. */
  lemma RunResponseLast(st: Session, directory: string, fs: FileSystem, chunks: seq<Option<string>>)
    requires chunks != []
    ensures var r := Run(st, directory, fs, chunks);
            r.1[|chunks| - 1].Some? ==> r.1[|chunks| - 1].value == Answer(fs, directory, r.0.received) + CRLF
    ensures chunks[..|chunks|] == chunks
  {
  }

  // ---------------------------------------------------------------------
  // Responses to single query lines on a fresh connection

  lemma EndsWithCrlf(s: string)
    ensures HasSuffix(s + CRLF, CRLF)
  {
    assert (s + CRLF)[|s + CRLF| - 2..] == CRLF;
  }

  /** On a fresh connection, a chunk ending in CR LF is answered from that chunk alone. */
  lemma FreshLine(fs: FileSystem, directory: string, line: string)
    requires HasSuffix(line, CRLF)
    ensures Step(FRESH, directory, fs, Some(line)).1 == Some(Answer(fs, directory, line) + CRLF)
  {
    assert "" + line == line;
  }

  /** A user whose record reads as text gets that text verbatim, then CR LF. */
  lemma RecordIsReturned(fs: FileSystem, directory: string, user: string, contents: string)
    requires user != [] && NoEdgeWhitespace(user) && !Occurs(user, VERBOSE_KEY)
    requires FileExists(fs, directory, user) && fs[UserPath(directory, user)] == Some(contents)
    ensures Step(FRESH, directory, fs, Some(user + CRLF)).1 == Some(contents + CRLF)
  {
    NormalizeQueryLine(user);
    EndsWithCrlf(user);
    FreshLine(fs, directory, user + CRLF);
  }

  /** A user without a record, or with one that cannot be read as text, gets the sentinel. */
  lemma MissingUserGetsSentinel(fs: FileSystem, directory: string, user: string)
    requires user != [] && NoEdgeWhitespace(user) && !Occurs(user, VERBOSE_KEY)
    requires !FileExists(fs, directory, user) || fs[UserPath(directory, user)] == None
    ensures Step(FRESH, directory, fs, Some(user + CRLF)).1 == Some(USER_ERROR + CRLF)
  {
    NormalizeQueryLine(user);
    EndsWithCrlf(user);
    FreshLine(fs, directory, user + CRLF);
    assert Answer(fs, directory, user + CRLF) == USER_ERROR;
  }

  /** A blank line (whitespace, then CR LF) gets the canned error and no lookup. */
  lemma BlankLineGetsError(fs: FileSystem, directory: string, blank: string)
    requires AllWhitespace(blank)
    ensures Step(FRESH, directory, fs, Some(blank + CRLF)).1 == Some(EMPTY_QUERY_ERROR + CRLF)
  {
    var line := blank + CRLF;
    assert AllWhitespace(line) by {
      forall i | 0 <= i < |line| ensures IsWhitespace(line[i]) {
        if i >= |blank| { assert line[i] == CRLF[i - |blank|]; }
      }
    }
    NormalizeBlankLine(line);
    EndsWithCrlf(blank);
    FreshLine(fs, directory, line);
  }

  /** "/W" in front of the query line, or just before its CR LF, changes nothing. */
  lemma {:induction false} VerboseMarkerInert(fs: FileSystem, directory: string, query: string)
    ensures Step(FRESH, directory, fs, Some(VERBOSE_KEY + query + CRLF)).1 == Step(FRESH, directory, fs, Some(query + CRLF)).1
    ensures Step(FRESH, directory, fs, Some(query + VERBOSE_KEY + CRLF)).1 == Step(FRESH, directory, fs, Some(query + CRLF)).1
  {
    var line := query + CRLF;
    var front := VERBOSE_KEY + query + CRLF;
    var back := query + VERBOSE_KEY + CRLF;
    assert front == VERBOSE_KEY + line;
    NormalizeIgnoresKeyAtEnds(line);
    NormalizeIgnoresInsertedKey(query, CRLF);
    EndsWithCrlf(query);
    EndsWithCrlf(VERBOSE_KEY + query);
    EndsWithCrlf(query + VERBOSE_KEY);
    FreshLine(fs, directory, line);
    FreshLine(fs, directory, front);
    FreshLine(fs, directory, back);
  }

  // ---------------------------------------------------------------------
  // Several read events on one connection

  /**
   * A query split over several chunks, of which only the last ends with
   * CR LF, gets no response until that last chunk, and then the same one
   * as the whole line sent in a single chunk.
   */
  lemma {:induction false} PartialDelivery(fs: FileSystem, directory: string, chunks: seq<Option<string>>)
    requires chunks != []
    requires forall i :: 0 <= i < |chunks| - 1 ==> !HasSuffix(Decode(chunks[i]), CRLF)
    requires HasSuffix(Decode(chunks[|chunks| - 1]), CRLF)
    ensures forall i :: 0 <= i < |chunks| - 1 ==> Run(FRESH, directory, fs, chunks).1[i] == None
    ensures Run(FRESH, directory, fs, chunks).1[|chunks| - 1] == Run(FRESH, directory, fs, [Some(Join(chunks))]).1[0]
  {
    var n := |chunks|;
    var whole := Join(chunks);
    var last := Decode(chunks[n - 1]);
    assert whole == Join(chunks[..n - 1]) + last;
    assert whole[|whole| - 2..] == last[|last| - 2..];
    var single := [Some(whole)];
    assert single[..0] == [];
    assert Run(FRESH, directory, fs, single).1[0] == Step(FRESH, directory, fs, Some(whole)).1;
  }

  /** A CR LF split across two chunks is not recognised: no response is written. */
  lemma SplitTerminatorUnnoticed(fs: FileSystem, directory: string)
    ensures Run(FRESH, directory, fs, [Some("alice\r"), Some("\n")]).1 == [None, None]
  {
    var a := "alice\r";
    assert a[|a| - 2..] != CRLF by { assert a[|a| - 2..][1] != CRLF[1]; }
    assert "\n" != CRLF;
  }

  /** Run on one more chunk is Run on the others, then one Step. */
  lemma RunSnoc(st: Session, directory: string, fs: FileSystem, chunks: seq<Option<string>>, chunk: Option<string>)
    ensures var before := Run(st, directory, fs, chunks);
            var after := Step(before.0, directory, fs, chunk);
            Run(st, directory, fs, chunks + [chunk]) == (after.0, before.1 + [after.1])
  {
    assert (chunks + [chunk])[..|chunks|] == chunks;
  }

  lemma RunOne(st: Session, directory: string, fs: FileSystem, chunk: Option<string>)
    ensures var step := Step(st, directory, fs, chunk);
            Run(st, directory, fs, [chunk]) == (step.0, [step.1])
  {
    var none: seq<Option<string>> := [];
    RunSnoc(st, directory, fs, none, chunk);
    assert Run(st, directory, fs, none) == (st, []);
    assert none + [chunk] == [chunk];
    assert Run(st, directory, fs, none).1 + [Step(st, directory, fs, chunk).1] == [Step(st, directory, fs, chunk).1];
  }

  lemma RunPair(st: Session, directory: string, fs: FileSystem, first: Option<string>, second: Option<string>)
    ensures var step1 := Step(st, directory, fs, first);
            var step2 := Step(step1.0, directory, fs, second);
            Run(st, directory, fs, [first, second]).1 == [step1.1, step2.1]
  {
    RunOne(st, directory, fs, first);
    RunSnoc(st, directory, fs, [first], second);
    assert [first] + [second] == [first, second];
  }

  /**
   * The buffer is not cleared after a response: the answer to a second
   * chunk is computed from both chunks together.
   */
  lemma SecondChunkSeesFirst(fs: FileSystem, directory: string, first: Option<string>, second: Option<string>)
    requires HasSuffix(Decode(second), CRLF)
    ensures Run(FRESH, directory, fs, [first, second]).1[1]
         == Some(Answer(fs, directory, Decode(first) + Decode(second)) + CRLF)
  {
    RunPair(FRESH, directory, fs, first, second);
    assert Step(FRESH, directory, fs, first).0.received == Decode(first);
  }

  /**
   * So a second query line on a connection that is still open is looked up
   * glued to the first: "alice" CR LF, then "bob" CR LF, reads the record of
   * the user "alice" CR LF "bob".
   */
  lemma BufferNeverReset(fs: FileSystem, directory: string, user1: string, user2: string)
    requires user1 != [] && user2 != [] && NoEdgeWhitespace(user1) && NoEdgeWhitespace(user2)
    requires forall i :: 0 <= i < |user1| ==> user1[i] != '/'
    requires forall i :: 0 <= i < |user2| ==> user2[i] != '/'
    ensures Run(FRESH, directory, fs, [Some(user1 + CRLF), Some(user2 + CRLF)]).1[1]
         == Some(ReadFile(fs, directory, user1 + CRLF + user2) + CRLF)
  {
    var u := user1 + CRLF + user2;
    assert (user1 + CRLF) + (user2 + CRLF) == u + CRLF;
    assert forall i :: 0 <= i < |u| ==> u[i] != '/' by {
      forall i | 0 <= i < |u| ensures u[i] != '/' {
        if i < |user1| { assert u[i] == user1[i]; }
        else if i < |user1| + 2 { assert u[i] == CRLF[i - |user1|]; }
        else { assert u[i] == user2[i - |user1| - 2]; }
      }
    }
    NoSlash(u);
    assert u[0] == user1[0] && u[|u| - 1] == user2[|user2| - 1];
    NormalizeQueryLine(u);
    EndsWithCrlf(user2);
    SecondChunkSeesFirst(fs, directory, Some(user1 + CRLF), Some(user2 + CRLF));
  }

  lemma {:induction false} NoSlash(s: string)
    requires forall i :: 0 <= i < |s| ==> s[i] != '/'
    ensures !Occurs(s, VERBOSE_KEY)
    decreases |s|
  {
    if |s| >= 2 {
      assert s[..2][0] != VERBOSE_KEY[0];
      NoSlash(s[1..]);
    }
  }

  /**
   * The per-connection handler. `received` and `answer` change with every
   * read event; `userDirectory` and `verbose` are fixed at construction.
   */
  class FingerHandler {
    var received: string
    var answer: string
    var userDirectory: string
    var verbose: bool

    function State(): Session
      reads this
    {
      Session(received, answer)
    }

    constructor (userDirectory: string, verbose: bool)
      ensures this.userDirectory == StripTrailingSlash(userDirectory)
      ensures this.verbose == verbose
      ensures State() == FRESH
    {
      this.userDirectory := StripTrailingSlash(userDirectory);
      this.verbose := verbose;
      received := "";
      answer := "";
    }

    /**
     * One inbound chunk (`None` when it cannot be decoded) read against the
     * filesystem as it is now; returns the response to write, if any.
     */
    method ChannelRead(chunk: Option<string>, fs: FileSystem) returns (response: Option<string>)
      modifies this
      ensures (State(), response) == Step(old(State()), userDirectory, fs, chunk)
      // The clauses below follow from the one above and Step's contract;
      // they are spelled out for callers.
      ensures received == old(received) + Decode(chunk)
      ensures response.Some? <==> HasSuffix(Decode(chunk), CRLF)
      ensures response.None? ==> answer == old(answer)
      ensures response.Some? ==> response.value == answer + CRLF
      ensures userDirectory == old(userDirectory) && verbose == old(verbose)
    {
      var r := chunk.GetOr(CRLF);
      received := received + r;
      if HasSuffix(r, CRLF) {
        var cleaned := RemoveAll(received, VERBOSE_KEY);
        var trimmed := Trim(cleaned);
        if trimmed == "" {
          answer := EMPTY_QUERY_ERROR;
        } else {
          answer := ReadFile(fs, userDirectory, trimmed);
        }
        response := Some(answer + CRLF);
      } else {
        response := None;
      }
    }
  }
}
