/**
 * The popup's state and its scan pipeline: the saved pattern list with its add and delete
 * operations, and the callback that turns the settled fetch responses into the displayed
 * listing (contents assembly, matching, deduplication, grouping).
 */
module Popup {
  import opened Seqs
  import opened Records
  import opened Matcher
  import opened Deduplicator
  import opened Grouping

  /** The pattern list with every entry equal to `pattern` removed, the others kept in order. */
  function Without(patterns: seq<string>, pattern: string): (r: seq<string>)
    ensures forall x :: x in r <==> x in patterns && x != pattern
    ensures multiset(r) == multiset(patterns)[pattern := 0]
  {
    if patterns == [] then []
    else
      var prefix := patterns[..|patterns| - 1];
      var last := patterns[|patterns| - 1];
      assert patterns == prefix + [last];
      if last == pattern then Without(prefix, pattern) else Without(prefix, pattern) + [last]
  }

  lemma {:induction false} WithoutEmbeds(patterns: seq<string>, pattern: string) returns (idx: seq<nat>)
    ensures Embeds(Without(patterns, pattern), patterns, idx)
  {
    if patterns == [] {
      idx := [];
    } else {
      var prefix := patterns[..|patterns| - 1];
      var last := patterns[|patterns| - 1];
      assert patterns == prefix + [last];
      idx := WithoutEmbeds(prefix, pattern);
      if last == pattern {
        EmbedsSnocRight(Without(prefix, pattern), prefix, idx, last);
      } else {
        EmbedsSnocBoth(Without(prefix, pattern), prefix, idx, last);
        idx := idx + [|prefix|];
      }
    }
  }

  /** Deletion keeps the remaining patterns in their original order. */
  lemma WithoutSubsequence(patterns: seq<string>, pattern: string)
    ensures IsSubsequence(Without(patterns, pattern), patterns)
  {
    var idx := WithoutEmbeds(patterns, pattern);
  }

  /** Deleting a pattern that is not in the list leaves the list as it is. */
  lemma {:induction false} WithoutAbsent(patterns: seq<string>, pattern: string)
    requires pattern !in patterns
    ensures Without(patterns, pattern) == patterns
  {
    if patterns != [] {
      var prefix := patterns[..|patterns| - 1];
      var last := patterns[|patterns| - 1];
      assert patterns == prefix + [last];
      WithoutAbsent(prefix, pattern);
      assert Without(patterns, pattern) == Without(prefix, pattern) + [last];
    }
  }

  /** Deleting just after adding forgets the addition, and every earlier copy of the pattern too. */
  lemma AddThenDelete(patterns: seq<string>, pattern: string)
    ensures Without(patterns + [pattern], pattern) == Without(patterns, pattern)
  {
    assert (patterns + [pattern])[..|patterns|] == patterns;
  }

  /** Deleting twice is deleting once. */
  lemma DeleteIdempotent(patterns: seq<string>, pattern: string)
    ensures Without(Without(patterns, pattern), pattern) == Without(patterns, pattern)
  {
    WithoutAbsent(Without(patterns, pattern), pattern);
  }

  /**
   * How a run ends: the catch handler logs an error and the word list keeps the previous
   * run's listing, or the word list is replaced by the new listing.
   */
  datatype Outcome = Failed | Rendered(listing: Listing)

  /**
   * One run of the callback: assemble the contents, match, deduplicate, group. Reading the
   * content of a resource whose fetch failed throws, which lands in the catch handler; that
   * happens exactly when there is at least one pattern and at least one response is missing.
   */
  function Scan(engine: Engine, patterns: seq<string>, tabUrl: string, scriptUrls: seq<string>,
                responses: seq<Option<string>>): (o: Outcome)
    requires |responses| == 1 + |scriptUrls|
    ensures o.Failed? <==> patterns != [] && exists i :: 0 <= i < |responses| && responses[i].None?
  {
    var contents := Assemble(tabUrl, scriptUrls, responses);
    assert forall i :: 0 <= i < |contents| ==> contents[i].content == responses[i];
    if patterns != [] && !AllFetched(contents) then Failed
    else Rendered(Display(Dedup(AllRecords(engine, patterns, contents))))
  }

  /** The two ways a run ends, as the callback takes them in turn. */
  lemma ScanSteps(engine: Engine, patterns: seq<string>, tabUrl: string, scriptUrls: seq<string>,
                  responses: seq<Option<string>>)
    requires |responses| == 1 + |scriptUrls|
    ensures var contents := Assemble(tabUrl, scriptUrls, responses);
            if patterns != [] && !AllFetched(contents)
            then Scan(engine, patterns, tabUrl, scriptUrls, responses) == Failed
            else Scan(engine, patterns, tabUrl, scriptUrls, responses)
                 == Rendered(Display(Dedup(AllRecords(engine, patterns, contents))))
  {
  }

  /** The records whose pattern is not `pattern`, in order. */
  function DropPattern(rs: seq<MatchRecord>, pattern: string): (d: seq<MatchRecord>)
    ensures forall r :: r in d <==> r in rs && r.pattern != pattern
  {
    if rs == [] then []
    else
      var prefix := rs[..|rs| - 1];
      var last := rs[|rs| - 1];
      assert rs == prefix + [last];
      if last.pattern == pattern then DropPattern(prefix, pattern) else DropPattern(prefix, pattern) + [last]
  }

  lemma {:induction false} DropPatternAppend(a: seq<MatchRecord>, b: seq<MatchRecord>, pattern: string)
    ensures DropPattern(a + b, pattern) == DropPattern(a, pattern) + DropPattern(b, pattern)
  {
    if b == [] {
      assert a + b == a;
    } else {
      assert (a + b)[..|a + b| - 1] == a + b[..|b| - 1];
      DropPatternAppend(a, b[..|b| - 1], pattern);
    }
  }

  lemma {:induction false} DropPatternUniform(rs: seq<MatchRecord>, q: string, pattern: string)
    requires forall i :: 0 <= i < |rs| ==> rs[i].pattern == q
    ensures q == pattern ==> DropPattern(rs, pattern) == []
    ensures q != pattern ==> DropPattern(rs, pattern) == rs
  {
    if rs != [] {
      var prefix := rs[..|rs| - 1];
      var last := rs[|rs| - 1];
      assert rs == prefix + [last];
      assert forall i :: 0 <= i < |prefix| ==> prefix[i] == rs[i];
      DropPatternUniform(prefix, q, pattern);
    }
  }

  /** The records the last saved pattern contributes once `pattern` is deleted. */
  function Contribution(engine: Engine, last: string, pattern: string, contents: seq<Resource>): seq<MatchRecord>
    requires AllFetched(contents)
  {
    if last == pattern then [] else PatternRecords(engine, last, contents)
  }

  lemma WithoutRecordsStep(engine: Engine, patterns: seq<string>, pattern: string, contents: seq<Resource>)
    requires AllFetched(contents) && patterns != []
    ensures AllRecords(engine, Without(patterns, pattern), contents)
            == AllRecords(engine, Without(patterns[..|patterns| - 1], pattern), contents)
               + Contribution(engine, patterns[|patterns| - 1], pattern, contents)
  {
    var prefix := patterns[..|patterns| - 1];
    var last := patterns[|patterns| - 1];
    var kept := Without(prefix, pattern);
    if last != pattern {
      assert Without(patterns, pattern) == kept + [last];
      assert (kept + [last])[..|kept|] == kept;
    }
  }

  lemma DropRecordsStep(engine: Engine, patterns: seq<string>, pattern: string, contents: seq<Resource>)
    requires AllFetched(contents) && patterns != []
    ensures DropPattern(AllRecords(engine, patterns, contents), pattern)
            == DropPattern(AllRecords(engine, patterns[..|patterns| - 1], contents), pattern)
               + Contribution(engine, patterns[|patterns| - 1], pattern, contents)
  {
    var last := patterns[|patterns| - 1];
    var lastRecords := PatternRecords(engine, last, contents);
    DropPatternAppend(AllRecords(engine, patterns[..|patterns| - 1], contents), lastRecords, pattern);
    PatternRecordsSound(engine, last, contents);
    assert forall i :: 0 <= i < |lastRecords| ==> lastRecords[i] in lastRecords;
    DropPatternUniform(lastRecords, last, pattern);
  }

  /** Deleting a pattern removes exactly that pattern's records and keeps the others in order. */
  lemma {:induction false} DeleteDropsItsRecords(engine: Engine, patterns: seq<string>, pattern: string, contents: seq<Resource>)
    requires AllFetched(contents)
    ensures AllRecords(engine, Without(patterns, pattern), contents)
            == DropPattern(AllRecords(engine, patterns, contents), pattern)
  {
    if patterns != [] {
      DeleteDropsItsRecords(engine, patterns[..|patterns| - 1], pattern, contents);
      WithoutRecordsStep(engine, patterns, pattern, contents);
      DropRecordsStep(engine, patterns, pattern, contents);
    }
  }

  /** Every record of a listed pattern is among the records of the whole list. */
  lemma {:induction false} PatternRecordsIncluded(engine: Engine, patterns: seq<string>, pattern: string, contents: seq<Resource>)
    requires AllFetched(contents) && pattern in patterns
    ensures forall r :: r in PatternRecords(engine, pattern, contents) ==> r in AllRecords(engine, patterns, contents)
  {
    var prefix := patterns[..|patterns| - 1];
    var last := patterns[|patterns| - 1];
    if pattern != last {
      assert pattern in prefix by {
        var i :| 0 <= i < |patterns| && patterns[i] == pattern;
        assert i < |patterns| - 1 && prefix[i] == pattern;
      }
      PatternRecordsIncluded(engine, prefix, pattern, contents);
    }
  }

  /**
   * A run after adding a pattern that is already saved ends as the run before it would: the
   * engine gives the same texts again, and all of their keys have been seen, so the word list
   * is unchanged (the pattern list itself then shows the pattern twice).
   */
  lemma ReAddInvisible(engine: Engine, patterns: seq<string>, pattern: string, tabUrl: string,
                       scriptUrls: seq<string>, responses: seq<Option<string>>)
    requires |responses| == 1 + |scriptUrls|
    requires pattern in patterns
    ensures Scan(engine, patterns + [pattern], tabUrl, scriptUrls, responses)
            == Scan(engine, patterns, tabUrl, scriptUrls, responses)
  {
    var contents := Assemble(tabUrl, scriptUrls, responses);
    if AllFetched(contents) {
      var base := AllRecords(engine, patterns, contents);
      var extra := PatternRecords(engine, pattern, contents);
      assert (patterns + [pattern])[..|patterns|] == patterns;
      assert AllRecords(engine, patterns + [pattern], contents) == base + extra;
      PatternRecordsIncluded(engine, patterns, pattern, contents);
      forall r | r in extra ensures Key(r) in KeySet(base) {
        assert r in base;
      }
      DedupAppendSeen(base, extra);
    }
  }

  /** "No matched words found." is shown exactly when no listed pattern matches in any listed resource. */
  lemma NothingFoundIff(engine: Engine, patterns: seq<string>, contents: seq<Resource>)
    requires AllFetched(contents)
    ensures Display(Dedup(AllRecords(engine, patterns, contents))) == NoMatches
            <==> forall p, i :: p in patterns && 0 <= i < |contents| ==> Found(engine, p, contents[i]) == []
  {
    var rs := AllRecords(engine, patterns, contents);
    DedupKeys(rs);
    if rs == [] {
      forall p, i | p in patterns && 0 <= i < |contents| ensures Found(engine, p, contents[i]) == [] {
        if Found(engine, p, contents[i]) != [] {
          var w := Found(engine, p, contents[i])[0];
          AllRecordsComplete(engine, patterns, contents, p, contents[i], w);
          assert false;
        }
      }
    } else {
      AllRecordsSound(engine, patterns, contents);
      var r := rs[0];
      assert r in rs;
      var i :| 0 <= i < |contents| && contents[i] == r.content;
      assert r.word in Found(engine, r.pattern, contents[i]);
      assert Key(r) in KeySet(Dedup(rs));
    }
  }

  /** A single pattern's records, over resources with distinct URLs, keep each pair together. */
  lemma {:induction false} PatternRecordsContiguous(engine: Engine, pattern: string, contents: seq<Resource>)
    requires AllFetched(contents) && Distinct(Urls(contents))
    ensures Contiguous(PatternRecords(engine, pattern, contents))
  {
    if contents != [] {
      var prefix := contents[..|contents| - 1];
      var last := contents[|contents| - 1];
      assert contents == prefix + [last];
      assert AllFetched(prefix) by {
        assert forall i :: 0 <= i < |prefix| ==> prefix[i] == contents[i];
      }
      assert Urls(prefix) == Urls(contents)[..|prefix|];
      PatternRecordsContiguous(engine, pattern, prefix);
      PatternRecordsSound(engine, pattern, prefix);
      var a := PatternRecords(engine, pattern, prefix);
      var b := ResourceRecords(engine, pattern, last);
      forall i, j | 0 <= i < |a| && 0 <= j < |b| ensures PairOf(a[i]) != PairOf(b[j]) {
        assert a[i] in a;
        var k :| 0 <= k < |prefix| && prefix[k] == a[i].content;
        UrlsAt(contents, k);
        UrlsAt(contents, |contents| - 1);
      }
      ContiguousAppend(a, b);
    }
  }

  /** With distinct patterns and distinct URLs, the records of each pair are contiguous. */
  lemma {:induction false} AllRecordsContiguous(engine: Engine, patterns: seq<string>, contents: seq<Resource>)
    requires AllFetched(contents) && Distinct(patterns) && Distinct(Urls(contents))
    ensures Contiguous(AllRecords(engine, patterns, contents))
  {
    if patterns != [] {
      var prefix := patterns[..|patterns| - 1];
      var last := patterns[|patterns| - 1];
      AllRecordsContiguous(engine, prefix, contents);
      PatternRecordsContiguous(engine, last, contents);
      AllRecordsSound(engine, prefix, contents);
      PatternRecordsSound(engine, last, contents);
      var a := AllRecords(engine, prefix, contents);
      var b := PatternRecords(engine, last, contents);
      forall i, j | 0 <= i < |a| && 0 <= j < |b| ensures PairOf(a[i]) != PairOf(b[j]) {
        assert a[i] in a && b[j] in b;
        var k :| 0 <= k < |prefix| && prefix[k] == a[i].pattern;
        assert patterns[k] == prefix[k];
      }
      ContiguousAppend(a, b);
    }
  }

  /** The pattern list with every repeated entry left out: the first copy of each is kept. */
  function Nub(patterns: seq<string>): (r: seq<string>)
    ensures forall x :: x in r <==> x in patterns
    ensures Distinct(r)
  {
    if patterns == [] then []
    else
      var prefix := patterns[..|patterns| - 1];
      var last := patterns[|patterns| - 1];
      assert patterns == prefix + [last];
      if last in prefix then Nub(prefix) else Nub(prefix) + [last]
  }

  /**
   * A saved pattern repeated later in the list adds nothing after deduplication: its records
   * all have keys that its first copy already produced.
   */
  lemma {:induction false} DedupNub(engine: Engine, patterns: seq<string>, contents: seq<Resource>)
    requires AllFetched(contents)
    ensures Dedup(AllRecords(engine, patterns, contents)) == Dedup(AllRecords(engine, Nub(patterns), contents))
  {
    if patterns != [] {
      var prefix := patterns[..|patterns| - 1];
      var last := patterns[|patterns| - 1];
      assert patterns == prefix + [last];
      DedupNub(engine, prefix, contents);
      var base := AllRecords(engine, prefix, contents);
      var extra := PatternRecords(engine, last, contents);
      if last in prefix {
        PatternRecordsIncluded(engine, prefix, last, contents);
        forall r | r in extra ensures Key(r) in KeySet(base) {
          assert r in base;
        }
        DedupAppendSeen(base, extra);
      } else {
        var kept := Nub(prefix);
        assert Nub(patterns) == kept + [last];
        assert (kept + [last])[..|kept|] == kept;
        assert AllRecords(engine, Nub(patterns), contents) == AllRecords(engine, kept, contents) + extra;
        DedupAppendCongruent(base, AllRecords(engine, kept, contents), extra);
      }
    }
  }

  /**
   * When the tab and script URLs are distinct, every (pattern, URL) pair is shown in at most
   * one group, even when a pattern was saved more than once.
   */
  lemma GroupsDistinct(engine: Engine, patterns: seq<string>, tabUrl: string, scriptUrls: seq<string>,
                       responses: seq<Option<string>>)
    requires |responses| == 1 + |scriptUrls|
    requires Distinct([tabUrl] + scriptUrls)
    ensures Scan(engine, patterns, tabUrl, scriptUrls, responses).Rendered?
            && Scan(engine, patterns, tabUrl, scriptUrls, responses).listing.Groups?
            ==> PairsDistinct(Scan(engine, patterns, tabUrl, scriptUrls, responses).listing.groups)
  {
    var contents := Assemble(tabUrl, scriptUrls, responses);
    AssembleUnzips(tabUrl, scriptUrls, responses);
    if patterns == [] {
      AllRecordsEmpty(engine, patterns, contents);
    } else if AllFetched(contents) {
      DedupNub(engine, patterns, contents);
      var rs := AllRecords(engine, Nub(patterns), contents);
      AllRecordsContiguous(engine, Nub(patterns), contents);
      DedupSubsequence(rs);
      ContiguousSubsequence(Dedup(rs), rs);
      RunsPairsDistinct(Dedup(rs));
    }
  }

  /** An engine under which every pattern matches once, with the pattern itself as the text. */
  function EchoEngine(pattern: string, text: string): Option<seq<string>>
  {
    Some([pattern])
  }

  /**
   * Before deduplication, a pattern saved twice splits its pair's records: with patterns
   * "p", "q", "p" over one resource, the two "p" records are separated by the "q" record.
   */
  lemma RawRecordsNotContiguous()
    ensures !Contiguous(AllRecords(EchoEngine, ["p", "q", "p"], [Resource("u", Some("t"))]))
  {
    var c := Resource("u", Some("t"));
    EchoThree(c);
    var rs := AllRecords(EchoEngine, ["p", "q", "p"], [c]);
    assert PairOf(rs[0]) == PairOf(rs[2]) && PairOf(rs[1]) != PairOf(rs[2]);
  }

  /** The records of patterns "p", "q", "p" over one resource under the echo engine. */
  lemma EchoThree(c: Resource)
    requires c.content.Some?
    ensures AllRecords(EchoEngine, ["p", "q", "p"], [c])
            == [MatchRecord("p", c, "p"), MatchRecord("q", c, "q"), MatchRecord("p", c, "p")]
  {
    EchoRecords("p", c);
    EchoRecords("q", c);
    var p := MatchRecord("p", c, "p");
    var q := MatchRecord("q", c, "q");
    assert ["p"][..0] == [];
    assert AllRecords(EchoEngine, ["p"], [c]) == [p];
    assert ["p", "q"][..1] == ["p"];
    assert AllRecords(EchoEngine, ["p", "q"], [c]) == [p] + [q];
    assert ["p", "q", "p"][..2] == ["p", "q"];
    assert AllRecords(EchoEngine, ["p", "q", "p"], [c]) == [p] + [q] + [p];
  }

  /** Under the echo engine, one pattern over one resource gives the one record with its own text. */
  lemma EchoRecords(pattern: string, c: Resource)
    requires c.content.Some?
    ensures PatternRecords(EchoEngine, pattern, [c]) == [MatchRecord(pattern, c, pattern)]
  {
    SingletonRecords(EchoEngine, pattern, c);
    assert Found(EchoEngine, pattern, c) == [pattern];
  }

  /** An engine for the example run below: it finds both case variants of "token" in one text. */
  function TokenEngine(pattern: string, text: string): Option<seq<string>>
  {
    if pattern == "token" && text == "token TOKEN once" then Some(["token", "TOKEN"]) else None
  }

  /**
   * The example run: pattern "token" over a page whose text is "token TOKEN once" gives two
   * records that differ in their text, so both survive and form one group.
   */
  lemma TokenExample()
    ensures Scan(TokenEngine, ["token"], "page", [], [Some("token TOKEN once")])
            == Rendered(Groups([Group("token", "page", ["token", "TOKEN"])]))
  {
    var page := Resource("page", Some("token TOKEN once"));
    assert Assemble("page", [], [Some("token TOKEN once")]) == [page];
    var first := MatchRecord("token", page, "token");
    var second := MatchRecord("token", page, "TOKEN");
    SingletonRecords(TokenEngine, "token", page);
    assert Found(TokenEngine, "token", page) == ["token", "TOKEN"];
    assert AllRecords(TokenEngine, ["token"], [page]) == [first, second];
    assert Key(first) != Key(second) by {
      assert Key(first)[|Key(first)| - 5] == 't';
      assert Key(second)[|Key(second)| - 5] == 'T';
    }
    DedupTwo(first, second);
    RunsTwo(first, second);
    assert AllFetched([page]);
    assert Scan(TokenEngine, ["token"], "page", [], [Some("token TOKEN once")])
           == Rendered(Display(Dedup(AllRecords(TokenEngine, ["token"], [page]))));
  }

  /** The saved pattern list, a page-global array in the source. */
  class PatternList {
    var patterns: seq<string>

    /** Loading from storage: the stored list, or an empty one when nothing was stored. */
    constructor Load(stored: Option<seq<string>>)
      ensures patterns == if stored.Some? then stored.value else []
    {
      patterns := if stored.Some? then stored.value else [];
    }

    /** Saving a pattern appends it; duplicates are not rejected. */
    method Add(pattern: string)
      modifies this
      ensures patterns == old(patterns) + [pattern]
      ensures |patterns| == |old(patterns)| + 1 && patterns[|patterns| - 1] == pattern
      ensures forall i :: 0 <= i < |old(patterns)| ==> patterns[i] == old(patterns)[i]
    {
      patterns := patterns + [pattern];
    }

    /** Deleting a pattern filters out every entry equal to it. */
    method Delete(pattern: string)
      modifies this
      ensures patterns == Without(old(patterns), pattern)
      ensures pattern !in patterns
    {
      patterns := Without(patterns, pattern);
    }

    /**
     * The callback run once all fetches have settled: assemble the contents, match, remove
     * duplicates and group, against the pattern list as it is when the callback runs.
     */
    method Apply(engine: Engine, tabUrl: string, scriptUrls: seq<string>, responses: seq<Option<string>>)
      returns (outcome: Outcome)
      requires |responses| == 1 + |scriptUrls|
      ensures outcome == Scan(engine, patterns, tabUrl, scriptUrls, responses)
    {
      var contents := Assemble(tabUrl, scriptUrls, responses);
      ScanSteps(engine, patterns, tabUrl, scriptUrls, responses);
      if patterns != [] && !AllFetched(contents) {
        return Failed;
      }
      var matchedWords := MatchWordsWithRegex(contents, patterns, engine);
      var uniqueMatchedWords := RemoveDuplicates(matchedWords);
      var listing := DisplayMatchedWords(uniqueMatchedWords);
      assert listing == Display(uniqueMatchedWords);
      outcome := Rendered(listing);
    }
  }
}
