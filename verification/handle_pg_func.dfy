/** The routine-name parser: a routine named after the convention
    `"<verb> <path>[?<query>]"`, such as `"get /user/:id?name&age"`, is split
    into its verb, its path and its query text.

    The parser is modelled as written. Its two length guards apply Rust's `!`
    to a `usize`, which is a bitwise complement, so they fire only for
    lengths no string can produce: extra words are ignored, a url with two or
    more `?` is accepted with an empty query, and a name with no words, or a
    lone verb, indexes past the end of its word list and panics.
    `HandlePgFuncIntended` is the parser with the guards the code evidently
    meant.
 */
module Routes {
  import opened Text
  import opened Usize
  import opened Catalog

  /** The verbs a routine name may start with, compared case-sensitively. */
  const Verbs: seq<string> := ["get", "put", "post", "patch", "delete"]

  /** Which guard turned a name away. */
  datatype Rejection =
    | BadWordCount      // the guard on the number of words
    | UnknownVerb       // the first word is not one of `Verbs`
    | BadQuerySplit     // the guard on the number of `?`-separated pieces

  /** What handling one routine name comes to. `Rejected` and `Parsed` both
      return `Ok(())` to the caller; the rejection is only reported on the
      console. `IndexPanic` is an out-of-bounds index into the word list. */
  datatype Outcome =
    | Parsed(verb: string, path: string, query: string)
    | Rejected(reason: Rejection)
    | IndexPanic

  /** Every Rust `String` holds at most `isize::MAX` bytes, and so at most as
      many characters. */
  predicate RustString(s: string)
  {
    |s| <= ISIZE_MAX
  }

  /** The parser as written: split the name into words, check the word-count
      guard, read the verb, check it against `Verbs`, read the url, split it
      on `?`, check the piece-count guard, and take the path and the query. */
  function HandlePgFunc(func: PgFunc): (r: Outcome)
    requires RustString(func.name)
    ensures r.Parsed? ==> r.verb in Verbs && IsWord(r.verb)
    ensures r.Parsed? ==> '?' !in r.path && '?' !in r.query
  {
    var name := Words(func.name);
    if Not(|name|) == 2 then Rejected(BadWordCount)
    else if |name| == 0 then IndexPanic
    else
      var verb := name[0];
      if verb !in Verbs then Rejected(UnknownVerb)
      else if |name| == 1 then IndexPanic
      else
        var url := Split(name[1], '?');
        if Not(|url|) <= 2 then Rejected(BadQuerySplit)
        else
          var path := url[0];
          var query := if |url| == 2 then url[1] else "";
          Parsed(verb, path, query)
  }

  /** The word count and the piece count of any Rust string are far below the
      values the guards compare against. */
  lemma GuardsNeverFire(func: PgFunc)
    requires RustString(func.name)
    ensures Not(|Words(func.name)|) != 2
    ensures forall i :: 0 <= i < |Words(func.name)| ==> !(Not(|Split(Words(func.name)[i], '?')|) <= 2)
  {
  }

  /** How the outcome depends on the words of the name: it parses exactly when
      there are at least two words and the first is a verb, it is rejected
      exactly when the first word is not a verb, and it panics exactly when
      there are no words or a lone verb. The length guards reject nothing. */
  lemma {:induction false} OutcomeByWords(func: PgFunc)
    requires RustString(func.name)
    ensures var ws := Words(func.name);
      && (HandlePgFunc(func).Parsed? <==> |ws| >= 2 && ws[0] in Verbs)
      && (HandlePgFunc(func).Rejected? <==> |ws| >= 1 && ws[0] !in Verbs)
      && (HandlePgFunc(func).IndexPanic? <==> |ws| == 0 || (|ws| == 1 && ws[0] in Verbs))
      && (HandlePgFunc(func).Rejected? ==> HandlePgFunc(func).reason == UnknownVerb)
  {
    GuardsNeverFire(func);
  }

  /** A name whose first word is not a verb is rejected for that reason,
      whatever follows it. */
  lemma UnknownVerbRejected(func: PgFunc)
    requires RustString(func.name)
    requires |Words(func.name)| >= 1 && Words(func.name)[0] !in Verbs
    ensures HandlePgFunc(func) == Rejected(UnknownVerb)
  {
    GuardsNeverFire(func);
  }

  /** A parsed name's verb is its first word. The path is the part of the
      second word before its first `?` (all of it when there is none). With no
      `?` the query is empty; with exactly one, path, `?` and query put back
      together give the second word; with two or more, the query is empty. */
  lemma {:induction false} ParsedFields(func: PgFunc)
    requires RustString(func.name)
    requires HandlePgFunc(func).Parsed?
    ensures var r, ws := HandlePgFunc(func), Words(func.name);
      && |ws| >= 2
      && r.verb == ws[0]
      && |r.path| <= |ws[1]| && ws[1][..|r.path|] == r.path && '?' !in r.path
      && ('?' in ws[1] ==> ws[1][|r.path|] == '?')
      && (Occurrences(ws[1], '?') == 0 ==> r.path == ws[1] && r.query == "")
      && (Occurrences(ws[1], '?') == 1 ==> r.path + "?" + r.query == ws[1])
      && (Occurrences(ws[1], '?') >= 2 ==> r.query == "")
  {
    GuardsNeverFire(func);
    var ws := Words(func.name);
    var url := Split(ws[1], '?');
    var r := HandlePgFunc(func);
    assert r.path == url[0];
    if |url| > 1 {
      assert ws[1] == url[0] + "?" + JoinWith(url[1..], '?');
      assert ws[1][..|r.path|] == r.path;
    } else {
      assert ws[1] == url[0];
    }
  }

  /** Words after the second one do not change the outcome. */
  lemma {:induction false} ExtraWordsIgnored(f: PgFunc, g: PgFunc)
    requires RustString(f.name) && RustString(g.name)
    requires |Words(f.name)| >= 2 && |Words(g.name)| >= 2
    requires Words(f.name)[..2] == Words(g.name)[..2]
    ensures HandlePgFunc(f) == HandlePgFunc(g)
  {
    GuardsNeverFire(f);
    GuardsNeverFire(g);
    assert Words(f.name)[0] == Words(f.name)[..2][0];
    assert Words(f.name)[1] == Words(f.name)[..2][1];
  }

  // Checked apart from the lemmas that use them, where they would be
  // re-derived from the literal strings.
  lemma LiteralWords()
    ensures IsWord("get") && IsWord("/user/:id?name&age")
    ensures IsWord("GET") && IsWord("/users")
  {
  }

  /** A name written by the convention, a verb and then a path and a query
      joined by one `?`, parses back into that verb, path and query. */
  lemma {:induction false} ConventionRoundTrip(func: PgFunc, v: string, p: string, q: string)
    requires v in Verbs && '?' !in p && '?' !in q
    requires IsWord(v) && IsWord(p + "?" + q)
    requires func.name == v + " " + (p + "?" + q)
    requires RustString(func.name)
    ensures HandlePgFunc(func) == Parsed(v, p, q)
  {
    WordsOfTwo(func.name, v, p + "?" + q);
    SplitOfJoinWith([p, q], '?');
    assert JoinWith([p, q], '?') == p + "?" + q;
    GuardsNeverFire(func);
  }

  /** The sample name parses into verb `get`, path `/user/:id` and query
      `name&age`. */
  lemma SampleParses(func: PgFunc)
    requires func.name == "get /user/:id?name&age"
    ensures HandlePgFunc(func) == Parsed("get", "/user/:id", "name&age")
  {
    LiteralWords();
    assert "/user/:id?name&age" == "/user/:id" + "?" + "name&age";
    ConventionRoundTrip(func, "get", "/user/:id", "name&age");
  }

  /** Verbs are compared case-sensitively: an upper-case verb is rejected. */
  lemma UpperCaseVerbRejected(func: PgFunc)
    requires func.name == "GET /users"
    ensures HandlePgFunc(func) == Rejected(UnknownVerb)
  {
    LiteralWords();
    WordsOfTwo(func.name, "GET", "/users");
    UnknownVerbRejected(func);
  }

  // The parser with the guards the code evidently meant: exactly two words,
  // and at most two `?`-separated pieces.

  function HandlePgFuncIntended(func: PgFunc): (r: Outcome)
    ensures !r.IndexPanic?
  {
    var name := Words(func.name);
    if |name| != 2 then Rejected(BadWordCount)
    else
      var verb := name[0];
      if verb !in Verbs then Rejected(UnknownVerb)
      else
        var url := Split(name[1], '?');
        if |url| > 2 then Rejected(BadQuerySplit)
        else
          var path := url[0];
          var query := if |url| == 2 then url[1] else "";
          Parsed(verb, path, query)
  }

  /** With the intended guards, a name parses exactly when it is a verb and a
      url with at most one `?`, and the parsed fields always give the url back. */
  lemma IntendedParsedIff(func: PgFunc)
    ensures var ws, r := Words(func.name), HandlePgFuncIntended(func);
      && (r.Parsed? <==> |ws| == 2 && ws[0] in Verbs && Occurrences(ws[1], '?') <= 1)
      && (r.Parsed? ==> r.verb == ws[0] && (if '?' in ws[1] then r.path + "?" + r.query else r.path) == ws[1])
  {
    var ws := Words(func.name);
    if |ws| == 2 && ws[0] in Verbs {
      var url := Split(ws[1], '?');
      if |url| == 2 {
        assert JoinWith(url, '?') == url[0] + "?" + url[1];
      }
    }
  }

  /** Wherever the intended parser accepts a name, the parser as written
      accepts it too and gives the same verb, path and query. */
  lemma IntendedAgreesWhenParsed(func: PgFunc)
    requires RustString(func.name)
    requires HandlePgFuncIntended(func).Parsed?
    ensures HandlePgFunc(func) == HandlePgFuncIntended(func)
  {
    GuardsNeverFire(func);
  }

  lemma CounterexampleWords()
    ensures IsWord("get") && IsWord("/a") && IsWord("b") && IsWord("/a?b?c")
    ensures '?' !in "/a" && '?' !in "b" && '?' !in "c"
  {
  }

  lemma CounterexampleSplit()
    ensures Split("/a?b?c", '?') == ["/a", "b", "c"]
  {
    CounterexampleWords();
    SplitOfJoinWith(["/a", "b", "c"], '?');
    assert JoinWith(["/a", "b", "c"], '?') == "/a?b?c";
  }

  /** The word-count guard as written lets a third word through: the name is
      parsed as if the word were absent, where the intended guard rejects it. */
  lemma ExtraWordAccepted(func: PgFunc)
    requires func.name == "get /a b"
    ensures HandlePgFunc(func) == Parsed("get", "/a", "")
    ensures HandlePgFuncIntended(func) == Rejected(BadWordCount)
  {
    CounterexampleWords();
    ThreeWords(func.name, "get", "/a", "b");
    NoQueryParsed(func, "get", "/a");
    IntendedRejectsWordCount(func);
  }

  /** The word-count guard as written lets a lone verb through to an index
      past the end of the word list, where the intended guard rejects it. */
  lemma LoneVerbPanics(func: PgFunc)
    requires func.name == "get"
    ensures HandlePgFunc(func) == IndexPanic
    ensures HandlePgFuncIntended(func) == Rejected(BadWordCount)
  {
    CounterexampleWords();
    WordsOfUnwords(["get"]);
    OutcomeByWords(func);
    IntendedRejectsWordCount(func);
  }

  /** The piece-count guard as written lets a second `?` through: the name is
      parsed with an empty query, where the intended guard rejects it. */
  lemma SecondQueryMarkAccepted(func: PgFunc)
    requires func.name == "get /a?b?c"
    ensures HandlePgFunc(func) == Parsed("get", "/a", "")
    ensures HandlePgFuncIntended(func) == Rejected(BadQuerySplit)
  {
    CounterexampleWords();
    WordsOfTwo(func.name, "get", "/a?b?c");
    CounterexampleSplit();
    ManyQueryMarksParsed(func);
  }

  lemma NoQueryParsed(func: PgFunc, v: string, u: string)
    requires RustString(func.name)
    requires |Words(func.name)| >= 2 && Words(func.name)[0] == v && Words(func.name)[1] == u
    requires v in Verbs && '?' !in u
    ensures HandlePgFunc(func) == Parsed(v, u, "")
  {
    GuardsNeverFire(func);
  }

  lemma ManyQueryMarksParsed(func: PgFunc)
    requires RustString(func.name)
    requires |Words(func.name)| == 2 && Words(func.name)[0] in Verbs
    requires |Split(Words(func.name)[1], '?')| > 2
    ensures HandlePgFunc(func) == Parsed(Words(func.name)[0], Split(Words(func.name)[1], '?')[0], "")
    ensures HandlePgFuncIntended(func) == Rejected(BadQuerySplit)
  {
    GuardsNeverFire(func);
  }

  lemma IntendedRejectsWordCount(func: PgFunc)
    requires |Words(func.name)| != 2
    ensures HandlePgFuncIntended(func) == Rejected(BadWordCount)
  {
  }
}
