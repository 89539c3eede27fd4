/**
 * Applying every saved pattern to every fetched resource (matchWordsWithRegex).
 * The regular-expression engine is a parameter: `engine(pattern, text)` stands for
 * `text.match(new RegExp(pattern, "gi"))`, with None for a null result.
 */
module Matcher {
  import opened Records

  type Engine = (string, string) -> Option<seq<string>>

  /** True when every resource was fetched, so that reading its content cannot fail. */
  predicate AllFetched(contents: seq<Resource>)
  {
    forall i :: 0 <= i < |contents| ==> contents[i].content.Some?
  }

  /** The matched texts of `pattern` in the fetched resource `c`; a null result gives none. */
  function Found(engine: Engine, pattern: string, c: Resource): seq<string>
    requires c.content.Some?
  {
    match engine(pattern, c.content.value)
    case None => []
    case Some(words) => words
  }

  /** One record per matched text of `pattern` in `c`, in the engine's order. */
  function ResourceRecords(engine: Engine, pattern: string, c: Resource): (rs: seq<MatchRecord>)
    requires c.content.Some?
    ensures |rs| == |Found(engine, pattern, c)|
  {
    var words := Found(engine, pattern, c);
    seq(|words|, k requires 0 <= k < |words| => MatchRecord(pattern, c, words[k]))
  }

  /** The records of one pattern: the resources in list order, each one's records in turn. */
  function PatternRecords(engine: Engine, pattern: string, contents: seq<Resource>): seq<MatchRecord>
    requires AllFetched(contents)
  {
    if contents == [] then []
    else PatternRecords(engine, pattern, contents[..|contents| - 1])
         + ResourceRecords(engine, pattern, contents[|contents| - 1])
  }

  /** All records: the patterns in list order (outer), each one's records over all resources (inner). */
  function AllRecords(engine: Engine, patterns: seq<string>, contents: seq<Resource>): seq<MatchRecord>
    requires patterns == [] || AllFetched(contents)
  {
    if patterns == [] then []
    else AllRecords(engine, patterns[..|patterns| - 1], contents)
         + PatternRecords(engine, patterns[|patterns| - 1], contents)
  }

  /**
   * The nested loops of the source: for each pattern, for each resource, push one record per
   * element of the match result. The contents are read only once there is a pattern, so an
   * unfetched resource is a problem only when the pattern list is not empty.
   */
  method MatchWordsWithRegex(contents: seq<Resource>, patterns: seq<string>, engine: Engine)
    returns (matchedWords: seq<MatchRecord>)
    requires patterns == [] || AllFetched(contents)
    ensures matchedWords == AllRecords(engine, patterns, contents)
  {
    matchedWords := [];
    var i := 0;
    while i < |patterns|
      invariant 0 <= i <= |patterns|
      invariant matchedWords == AllRecords(engine, patterns[..i], contents)
    {
      matchedWords := MatchPattern(matchedWords, patterns[i], contents, engine);
      AllRecordsStep(engine, patterns, contents, i);
      i := i + 1;
    }
    assert patterns[..i] == patterns;
  }

  /**
   * The body of the outer loop for one pattern: go through the resources in order and push
   * the records of each.
   */
  method MatchPattern(matchedWords: seq<MatchRecord>, pattern: string, contents: seq<Resource>, engine: Engine)
    returns (pushed: seq<MatchRecord>)
    requires AllFetched(contents)
    ensures pushed == matchedWords + PatternRecords(engine, pattern, contents)
  {
    pushed := matchedWords;
    var j := 0;
    while j < |contents|
      invariant 0 <= j <= |contents|
      invariant pushed == matchedWords + PatternRecords(engine, pattern, contents[..j])
    {
      pushed := PushMatches(pushed, pattern, contents[j], engine);
      PatternRecordsStep(engine, pattern, contents, j);
      j := j + 1;
    }
    assert contents[..j] == contents;
  }

  /**
   * The body of the inner loop for one resource: match its content and push one record per
   * element of a non-null result.
   */
  method PushMatches(matchedWords: seq<MatchRecord>, pattern: string, content: Resource, engine: Engine)
    returns (pushed: seq<MatchRecord>)
    requires content.content.Some?
    ensures pushed == matchedWords + ResourceRecords(engine, pattern, content)
  {
    pushed := matchedWords;
    var matches := engine(pattern, content.content.value);
    ghost var records := ResourceRecords(engine, pattern, content);
    if matches.Some? {
      var k := 0;
      while k < |matches.value|
        invariant 0 <= k <= |matches.value|
        invariant pushed == matchedWords + records[..k]
      {
        assert records[..k + 1] == records[..k] + [MatchRecord(pattern, content, matches.value[k])];
        pushed := pushed + [MatchRecord(pattern, content, matches.value[k])];
        k := k + 1;
      }
      assert records[..k] == records;
    }
  }

  lemma PatternRecordsStep(engine: Engine, pattern: string, contents: seq<Resource>, j: nat)
    requires AllFetched(contents) && j < |contents|
    ensures AllFetched(contents[..j])
    ensures PatternRecords(engine, pattern, contents[..j + 1])
            == PatternRecords(engine, pattern, contents[..j]) + ResourceRecords(engine, pattern, contents[j])
  {
    assert contents[..j + 1][..j] == contents[..j];
  }

  lemma AllRecordsStep(engine: Engine, patterns: seq<string>, contents: seq<Resource>, i: nat)
    requires AllFetched(contents) && i < |patterns|
    ensures AllRecords(engine, patterns[..i + 1], contents)
            == AllRecords(engine, patterns[..i], contents) + PatternRecords(engine, patterns[i], contents)
  {
    assert patterns[..i + 1][..i] == patterns[..i];
  }

  /** Concatenating pattern lists concatenates their records: the pattern list is the outer loop. */
  lemma {:induction false} AllRecordsAppend(engine: Engine, ps: seq<string>, qs: seq<string>, contents: seq<Resource>)
    requires ps + qs == [] || AllFetched(contents)
    ensures AllRecords(engine, ps + qs, contents)
            == AllRecords(engine, ps, contents) + AllRecords(engine, qs, contents)
  {
    if qs == [] {
      assert ps + qs == ps;
    } else {
      assert (ps + qs)[..|ps + qs| - 1] == ps + qs[..|qs| - 1];
      AllRecordsAppend(engine, ps, qs[..|qs| - 1], contents);
    }
  }

  /** Concatenating contents lists concatenates one pattern's records: resources are the inner loop. */
  lemma {:induction false} PatternRecordsAppend(engine: Engine, pattern: string, cs: seq<Resource>, ds: seq<Resource>)
    requires AllFetched(cs + ds)
    ensures AllFetched(cs) && AllFetched(ds)
    ensures PatternRecords(engine, pattern, cs + ds)
            == PatternRecords(engine, pattern, cs) + PatternRecords(engine, pattern, ds)
  {
    forall i | 0 <= i < |cs| ensures cs[i].content.Some? {
      assert cs[i] == (cs + ds)[i];
    }
    forall i | 0 <= i < |ds| ensures ds[i].content.Some? {
      assert ds[i] == (cs + ds)[|cs| + i];
    }
    if ds == [] {
      assert cs + ds == cs;
    } else {
      var front := ds[..|ds| - 1];
      assert (cs + ds)[..|cs + ds| - 1] == cs + front;
      assert (cs + ds)[|cs + ds| - 1] == ds[|ds| - 1];
      PatternRecordsAppend(engine, pattern, cs, front);
    }
  }

  /** The records of a single pattern on a single resource are that resource's match records. */
  lemma SingletonRecords(engine: Engine, pattern: string, c: Resource)
    requires c.content.Some?
    ensures AllRecords(engine, [pattern], [c]) == ResourceRecords(engine, pattern, c)
  {
    assert [pattern][..0] == [];
    assert [c][..0] == [];
    assert PatternRecords(engine, pattern, [c]) == ResourceRecords(engine, pattern, c);
  }

  /** No patterns, or no resources, give no records. */
  lemma {:induction false} AllRecordsEmpty(engine: Engine, patterns: seq<string>, contents: seq<Resource>)
    requires patterns == [] || contents == []
    ensures AllRecords(engine, patterns, contents) == []
  {
    if patterns != [] {
      AllRecordsEmpty(engine, patterns[..|patterns| - 1], contents);
    }
  }

  /** Every record of one pattern names that pattern, a listed resource, and one of its matched texts. */
  lemma {:induction false} PatternRecordsSound(engine: Engine, pattern: string, contents: seq<Resource>)
    requires AllFetched(contents)
    ensures forall r :: r in PatternRecords(engine, pattern, contents) ==>
      && r.pattern == pattern && r.content in contents
      && engine(pattern, r.content.content.value).Some?
      && r.word in engine(pattern, r.content.content.value).value
  {
    if contents != [] {
      var prefix := contents[..|contents| - 1];
      assert AllFetched(prefix) by {
        assert forall i :: 0 <= i < |prefix| ==> prefix[i] == contents[i];
      }
      PatternRecordsSound(engine, pattern, prefix);
      forall r | r in PatternRecords(engine, pattern, prefix) ensures r.content in contents {
        assert r.content in prefix;
      }
    }
  }

  /**
   * Record fields are drawn from the inputs: the pattern is a listed pattern, the resource a
   * listed (and fetched) resource, and the text an element of a non-null match result.
   */
  lemma {:induction false} AllRecordsSound(engine: Engine, patterns: seq<string>, contents: seq<Resource>)
    requires patterns == [] || AllFetched(contents)
    ensures forall r :: r in AllRecords(engine, patterns, contents) ==>
      && r.pattern in patterns && r.content in contents && r.content.content.Some?
      && engine(r.pattern, r.content.content.value).Some?
      && r.word in engine(r.pattern, r.content.content.value).value
  {
    if patterns != [] {
      var prefix := patterns[..|patterns| - 1];
      var last := patterns[|patterns| - 1];
      AllRecordsSound(engine, prefix, contents);
      PatternRecordsSound(engine, last, contents);
      forall r | r in AllRecords(engine, prefix, contents) ensures r.pattern in patterns {
        assert r.pattern in prefix;
      }
    }
  }

  /** Every matched text of the pattern in a listed resource yields a record of that pattern. */
  lemma {:induction false} PatternRecordsComplete(engine: Engine, pattern: string, contents: seq<Resource>, c: Resource, word: string)
    requires AllFetched(contents)
    requires c in contents && engine(pattern, c.content.value).Some?
    requires word in engine(pattern, c.content.value).value
    ensures MatchRecord(pattern, c, word) in PatternRecords(engine, pattern, contents)
  {
    var last := contents[|contents| - 1];
    var prefix := contents[..|contents| - 1];
    if c == last {
      var words := Found(engine, pattern, c);
      var k :| 0 <= k < |words| && words[k] == word;
      assert ResourceRecords(engine, pattern, c)[k] == MatchRecord(pattern, c, word);
    } else {
      assert c in prefix by {
        var i :| 0 <= i < |contents| && contents[i] == c;
        assert i < |contents| - 1 && prefix[i] == c;
      }
      assert AllFetched(prefix) by {
        assert forall i :: 0 <= i < |prefix| ==> prefix[i] == contents[i];
      }
      PatternRecordsComplete(engine, pattern, prefix, c, word);
    }
  }

  /** Conversely, every matched text of every listed pattern in every listed resource is recorded. */
  lemma {:induction false} AllRecordsComplete(engine: Engine, patterns: seq<string>, contents: seq<Resource>, p: string, c: Resource, word: string)
    requires AllFetched(contents)
    requires p in patterns && c in contents && engine(p, c.content.value).Some?
    requires word in engine(p, c.content.value).value
    ensures MatchRecord(p, c, word) in AllRecords(engine, patterns, contents)
  {
    var last := patterns[|patterns| - 1];
    var prefix := patterns[..|patterns| - 1];
    if p == last {
      PatternRecordsComplete(engine, p, contents, c, word);
    } else {
      assert p in prefix by {
        var i :| 0 <= i < |patterns| && patterns[i] == p;
        assert i < |patterns| - 1 && prefix[i] == p;
      }
      AllRecordsComplete(engine, prefix, contents, p, c, word);
    }
  }
}
