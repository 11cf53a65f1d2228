/**
 One run of the program as a pure function: parse the options, then either
 hand the Usage to the top-level handler or run the search and print the
 selected identifiers. The search service is a parameter mapping a query
 string to the posts it returns (already restricted to ids after the user's
 last post and capped at one page); the timestamp of the user's last post is
 a parameter too.
 */
module Cli {
  import opened OptionStore
  import opened Options
  import opened Text
  import opened Search
  import opened Report

  /** The search service: query string to the posts it returns. The service
      is assumed to return them newest first, but nothing here relies on it;
      Search.ReverseOrdersOldestFirst takes that order as a premise. */
  type SearchApi = string -> seq<Post>

  /** The results of the `#tag` queries, one list per tag, in tag order. */
  function TagResults(api: SearchApi, tags: seq<string>): (r: seq<seq<Post>>)
    ensures |r| == |tags|
    ensures forall i :: 0 <= i < |tags| ==> r[i] == api("#" + tags[i])
  {
    if |tags| == 0 then [] else [api("#" + tags[0])] + TagResults(api, tags[1..])
  }

  /** The message reported after the query for `tag` returned `n` posts:
      "Got ", a decimal numeral without a leading zero that reads back as
      `n`, then the tag part. */
  function TagMessage(tag: string, n: nat): (r: string)
    ensures var tail := " tweets for #" + tag + ".";
      && |r| > 4 + |tail|
      && r[..4] == "Got "
      && r[|r| - |tail|..] == tail
      && AllDigits(r[4..|r| - |tail|])
      && (r[4] == '0' ==> |r| == 5 + |tail|)
      && DecimalValue(r[4..|r| - |tail|]) == n
  {
    var digits := NatToString(n);
    var tail := " tweets for #" + tag + ".";
    DecimalRoundTrip(n);
    ThreeParts("Got ", digits, tail);
    "Got " + digits + tail
  }

  /** The level-2 diagnostics written after the tag queries. */
  function TagDiagnostics(verbosity: nat, tags: seq<string>, results: seq<seq<Post>>): (r: string)
    requires |tags| == |results|
    ensures verbosity < 2 ==> r == ""
    ensures verbosity >= 2 ==> (r == "" <==> |tags| == 0)
  {
    if |tags| == 0 then ""
    else VerboseLine(verbosity, TagMessage(tags[0], |results[0]|), 2)
         + TagDiagnostics(verbosity, tags[1..], results[1..])
  }

  /** A level-2 diagnostic that is written: two marks, "> ", the message and a newline. */
  lemma LevelTwoLine(verbosity: nat, msg: string)
    requires verbosity >= 2
    ensures VerboseLine(verbosity, msg, 2) == "==> " + msg + "\n"
  {
    assert Marks(2) == "==";
  }

  /** From verbosity 2 on, the diagnostics are one line per tag, in tag
      order: two marks, "> ", the tag's message and a newline. */
  lemma {:induction false} TagDiagnosticsLines(verbosity: nat, tags: seq<string>, results: seq<seq<Post>>)
    requires |tags| == |results|
    requires verbosity >= 2
    ensures TagDiagnostics(verbosity, tags, results)
         == Concat(seq(|tags|, i requires 0 <= i < |tags| => "==> " + TagMessage(tags[i], |results[i]|) + "\n"))
  {
    var lines := seq(|tags|, i requires 0 <= i < |tags| => "==> " + TagMessage(tags[i], |results[i]|) + "\n");
    if |tags| > 0 {
      TagDiagnosticsLines(verbosity, tags[1..], results[1..]);
      LevelTwoLine(verbosity, TagMessage(tags[0], |results[0]|));
      assert lines[1..] == seq(|tags| - 1, i requires 0 <= i < |tags| - 1
                                => "==> " + TagMessage(tags[1..][i], |results[1..][i]|) + "\n");
    }
  }

  /** findTweets from the point where the user's last post is known. */
  function FindTweets(st: State, api: SearchApi, createdAfter: int): (r: Outcome)
    requires WellFormed(st.opts)
    ensures r.status == EXIT_SUCCESS
    ensures st.verbosity == 0 ==> r.stderr == ""
  {
    var tags := TagsOf(st);
    var user := UserOf(st);
    var results := TagResults(api, tags);
    var tweets := Collect(results, api("@" + user));
    var total := VerboseLine(st.verbosity, "Got " + NatToString(|tweets|) + " tweets in total.", 1);
    Outcome(Output(IdStrings(Select(tweets, createdAfter, user))),
            TagDiagnostics(st.verbosity, tags, results) + total,
            EXIT_SUCCESS)
  }

  /** The main block: parse, then search, with a raised Usage routed by Dispatch. */
  function Run(g: Getopt, prog: string, api: SearchApi, createdAfter: int): (r: Outcome)
    ensures g.GetoptError? ==> r == Outcome("", UsageMessage(prog), EXIT_ERROR)
    ensures g.Parsed? && HasFlag(g.opts, Help) ==> r == Outcome(UsageMessage(prog), "", EXIT_SUCCESS)
    ensures g.Parsed? && !HasFlag(g.opts, Help) ==> r.status == EXIT_SUCCESS
    ensures g.Parsed? && !HasFlag(g.opts, Help) && Count(g.opts, Verbose) == 0 ==> r.stderr == ""
  {
    match ParseOptions(g)
    case Abort(u) => Dispatch(u, prog)
    case Proceed(st, _) => FindTweets(st, api, createdAfter)
  }

  /** When parsing ends in a Usage the search is never consulted: the outcome
      does not depend on what the service would return. */
  lemma UsageMakesNoQueries(g: Getopt, prog: string, api1: SearchApi, api2: SearchApi, t1: int, t2: int)
    requires g.GetoptError? || HasFlag(g.opts, Help)
    ensures Run(g, prog, api1, t1) == Run(g, prog, api2, t2)
  {
  }

  /** What a run without `-h` prints: the posts returned for `#tag` for every
      `-t` argument in command-line order, then those returned for `@user`
      with the last `-u` argument, reversed, filtered to the posts newer than
      `createdAfter` not written by that user, one id per line. */
  lemma RunPrintsSelection(opts: seq<Pair>, args: seq<string>, prog: string, api: SearchApi, createdAfter: int)
    requires !HasFlag(opts, Help)
    ensures var user := LastUserOr(opts, "");
      var tags := TagArgs(opts);
      var chosen := Selection(TagResults(api, tags), api("@" + user), createdAfter, user);
      Run(Parsed(opts, args), prog, api, createdAfter).stdout == Output(IdStrings(chosen))
  {
  }

  /** A search service that knows one tag, `#news`. */
  function ExampleApi(q: string): seq<Post> {
    if q == "#news" then [Post(4, 103, "alice"), Post(3, 102, "bob"), Post(2, 101, "carol"), Post(1, 99, "dave")]
    else []
  }

  lemma ExampleIds()
    ensures Output(IdStrings([Post(2, 101, "carol"), Post(3, 102, "bob")])) == "2\n3\n"
  {
    assert NatToString(2) == "2" && NatToString(3) == "3";
    assert IdStrings([Post(2, 101, "carol"), Post(3, 102, "bob")]) == ["2", "3"];
    assert Join(["2", "3"], "\n") == "2" + "\n" + Join(["3"], "\n");
  }

  lemma ExampleOptions()
    ensures var opts := [(Tag, "news"), (User, "alice")];
      && !HasFlag(opts, Help) && Count(opts, Verbose) == 0
      && TagArgs(opts) == ["news"] && LastUserOr(opts, "") == "alice"
  {
    var opts := [(Tag, "news"), (User, "alice")];
    assert opts[1..][1..] == [];
  }

  /** An end-to-end run: with `-t news -u alice`, a user whose last post is at
      time 100, and a tag query returning posts at 102, 101 and 99 by others
      plus one at 103 by alice, exactly the posts at 101 and 102 are printed,
      oldest first, and nothing goes to standard error. */
  lemma ExampleRun(prog: string)
    ensures Run(Parsed([(Tag, "news"), (User, "alice")], []), prog, ExampleApi, 100)
         == Outcome("2\n3\n", "", EXIT_SUCCESS)
  {
    var opts := [(Tag, "news"), (User, "alice")];
    ExampleOptions();
    RunPrintsSelection(opts, [], prog, ExampleApi, 100);
    var fetched := ExampleApi("#news");
    assert ExampleApi("@alice") == [];
    assert TagResults(ExampleApi, ["news"]) == [fetched];
    ExampleFilter();
    ExampleIds();
  }
}
