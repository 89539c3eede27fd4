/**
 * Removing duplicate records (removeDuplicates): a stable filter that keeps the first record for
 * each key, where the key is the string `pattern|url|text`, not the triple itself.
 */
module Deduplicator {
  import opened Records
  import opened Seqs

  /** The deduplication key, built by string concatenation with `|` separators. */
  function Key(r: MatchRecord): string
  {
    r.pattern + "|" + r.content.url + "|" + r.word
  }

  /** The structured triple the key is meant to stand for. */
  function Triple(r: MatchRecord): (string, string, string)
  {
    (r.pattern, r.content.url, r.word)
  }

  /** The keys of all records of `rs`. */
  function KeySet(rs: seq<MatchRecord>): set<string>
  {
    set r | r in rs :: Key(r)
  }

  /** Record `i` of `rs` is the first one with its key. */
  ghost predicate IsFirst(rs: seq<MatchRecord>, i: nat)
    requires i < |rs|
  {
    forall j :: 0 <= j < i ==> Key(rs[j]) != Key(rs[i])
  }

  /** No two records of `rs` share a key. */
  ghost predicate KeysUnique(rs: seq<MatchRecord>)
  {
    forall i, j :: 0 <= i < j < |rs| ==> Key(rs[i]) != Key(rs[j])
  }

  /** The records of `rs` whose key was not seen earlier, in their original order. */
  function Dedup(rs: seq<MatchRecord>): seq<MatchRecord>
  {
    if rs == [] then []
    else
      var prefix := rs[..|rs| - 1];
      var last := rs[|rs| - 1];
      if Key(last) in KeySet(prefix) then Dedup(prefix) else Dedup(prefix) + [last]
  }

  /** The loop of the source: a set of keys seen so far and the records kept so far. */
  method RemoveDuplicates(matchedWords: seq<MatchRecord>) returns (uniqueMatches: seq<MatchRecord>)
    ensures uniqueMatches == Dedup(matchedWords)
  {
    uniqueMatches := [];
    var uniqueKeys: set<string> := {};
    var i := 0;
    while i < |matchedWords|
      invariant 0 <= i <= |matchedWords|
      invariant uniqueKeys == KeySet(matchedWords[..i])
      invariant uniqueMatches == Dedup(matchedWords[..i])
    {
      var matched := matchedWords[i];
      var key := matched.pattern + "|" + matched.content.url + "|" + matched.word;
      assert matchedWords[..i + 1][..i] == matchedWords[..i];
      KeySetSnoc(matchedWords[..i], matched);
      assert matchedWords[..i] + [matched] == matchedWords[..i + 1];
      if key !in uniqueKeys {
        uniqueKeys := uniqueKeys + {key};
        uniqueMatches := uniqueMatches + [matched];
      }
      i := i + 1;
    }
    assert matchedWords[..i] == matchedWords;
  }

  lemma KeySetSnoc(rs: seq<MatchRecord>, x: MatchRecord)
    ensures KeySet(rs + [x]) == KeySet(rs) + {Key(x)}
  {
    assert forall r :: r in rs + [x] <==> r in rs || r == x;
  }

  /** Coverage: the kept records have exactly the keys of the input, so every input key survives. */
  lemma {:induction false} DedupKeys(rs: seq<MatchRecord>)
    ensures KeySet(Dedup(rs)) == KeySet(rs)
  {
    if rs != [] {
      var prefix := rs[..|rs| - 1];
      var last := rs[|rs| - 1];
      assert rs == prefix + [last];
      DedupKeys(prefix);
      KeySetSnoc(prefix, last);
      KeySetSnoc(Dedup(prefix), last);
    }
  }

  /** Uniqueness: no two kept records share a key. */
  lemma {:induction false} DedupUnique(rs: seq<MatchRecord>)
    ensures KeysUnique(Dedup(rs))
  {
    if rs != [] {
      var prefix := rs[..|rs| - 1];
      var last := rs[|rs| - 1];
      DedupUnique(prefix);
      DedupKeys(prefix);
      var d := Dedup(prefix);
      if Key(last) !in KeySet(prefix) {
        forall i | 0 <= i < |d| ensures Key(d[i]) != Key(last) {
          assert Key(d[i]) in KeySet(d);
        }
      }
    }
  }

  /** Equal triples give equal keys, so no two kept records carry the same triple either. */
  lemma DedupTriplesUnique(rs: seq<MatchRecord>)
    ensures forall i, j :: 0 <= i < j < |Dedup(rs)| ==> Triple(Dedup(rs)[i]) != Triple(Dedup(rs)[j])
  {
    DedupUnique(rs);
  }

  lemma {:induction false} DedupEmbeds(rs: seq<MatchRecord>) returns (idx: seq<nat>)
    ensures Embeds(Dedup(rs), rs, idx)
  {
    if rs == [] {
      idx := [];
    } else {
      var prefix := rs[..|rs| - 1];
      var last := rs[|rs| - 1];
      assert rs == prefix + [last];
      idx := DedupEmbeds(prefix);
      if Key(last) in KeySet(prefix) {
        EmbedsSnocRight(Dedup(prefix), prefix, idx, last);
      } else {
        EmbedsSnocBoth(Dedup(prefix), prefix, idx, last);
        idx := idx + [|prefix|];
      }
    }
  }

  /** Order: the kept records are a subsequence of the input. */
  lemma DedupSubsequence(rs: seq<MatchRecord>)
    ensures IsSubsequence(Dedup(rs), rs)
  {
    var idx := DedupEmbeds(rs);
  }

  /** The first record for each key is kept. */
  lemma {:induction false} DedupKeepsFirst(rs: seq<MatchRecord>, i: nat)
    requires i < |rs| && IsFirst(rs, i)
    ensures rs[i] in Dedup(rs)
  {
    var prefix := rs[..|rs| - 1];
    if i == |rs| - 1 {
      assert Key(rs[i]) !in KeySet(prefix) by {
        forall r | r in prefix ensures Key(r) != Key(rs[i]) {
          var j :| 0 <= j < |prefix| && prefix[j] == r;
          assert rs[j] == r;
        }
      }
    } else {
      assert IsFirst(prefix, i) by {
        assert forall j :: 0 <= j <= i ==> prefix[j] == rs[j];
      }
      DedupKeepsFirst(prefix, i);
      assert rs[i] == prefix[i];
    }
  }

  /** Only first records are kept: each kept record is the first input record with its key. */
  lemma {:induction false} DedupOnlyFirst(rs: seq<MatchRecord>, k: nat)
    requires k < |Dedup(rs)|
    ensures exists i :: 0 <= i < |rs| && rs[i] == Dedup(rs)[k] && IsFirst(rs, i)
  {
    var prefix := rs[..|rs| - 1];
    var last := rs[|rs| - 1];
    var d := Dedup(prefix);
    if k < |d| {
      DedupOnlyFirst(prefix, k);
      var i :| 0 <= i < |prefix| && prefix[i] == d[k] && IsFirst(prefix, i);
      assert rs[i] == Dedup(rs)[k];
      assert IsFirst(rs, i) by {
        assert forall j :: 0 <= j <= i ==> prefix[j] == rs[j];
      }
    } else {
      assert Dedup(rs)[k] == last && Key(last) !in KeySet(prefix);
      assert IsFirst(rs, |rs| - 1) by {
        forall j | 0 <= j < |rs| - 1 ensures Key(rs[j]) != Key(last) {
          assert rs[j] == prefix[j];
          assert Key(prefix[j]) in KeySet(prefix);
        }
      }
    }
  }

  /** Records whose keys are already unique are all kept, in place. */
  lemma {:induction false} DedupOfUnique(rs: seq<MatchRecord>)
    requires KeysUnique(rs)
    ensures Dedup(rs) == rs
  {
    if rs != [] {
      var prefix := rs[..|rs| - 1];
      var last := rs[|rs| - 1];
      assert KeysUnique(prefix) by {
        assert forall i :: 0 <= i < |prefix| ==> prefix[i] == rs[i];
      }
      DedupOfUnique(prefix);
      assert Key(last) !in KeySet(prefix) by {
        forall r | r in prefix ensures Key(r) != Key(last) {
          var j :| 0 <= j < |prefix| && prefix[j] == r;
          assert rs[j] == r;
        }
      }
      assert rs == prefix + [last];
    }
  }

  /** Idempotence: deduplicating twice is deduplicating once. */
  lemma DedupIdempotent(rs: seq<MatchRecord>)
    ensures Dedup(Dedup(rs)) == Dedup(rs)
  {
    DedupUnique(rs);
    DedupOfUnique(Dedup(rs));
  }

  /** Appending records whose keys were all seen already does not change the result. */
  lemma {:induction false} DedupAppendSeen(rs: seq<MatchRecord>, extra: seq<MatchRecord>)
    requires forall r :: r in extra ==> Key(r) in KeySet(rs)
    ensures Dedup(rs + extra) == Dedup(rs)
  {
    if extra == [] {
      assert rs + extra == rs;
    } else {
      var front := extra[..|extra| - 1];
      var last := extra[|extra| - 1];
      assert (rs + extra)[..|rs + extra| - 1] == rs + front;
      assert (rs + extra)[|rs + extra| - 1] == last;
      assert forall r :: r in front ==> r in extra;
      DedupAppendSeen(rs, front);
      assert Key(last) in KeySet(rs + front) by {
        var r :| r in rs && Key(r) == Key(last);
        assert r in rs + front;
      }
    }
  }

  /** What follows a block depends only on the block's deduplicated form, not on the block itself. */
  lemma {:induction false} DedupAppendCongruent(a: seq<MatchRecord>, b: seq<MatchRecord>, extra: seq<MatchRecord>)
    requires Dedup(a) == Dedup(b)
    ensures Dedup(a + extra) == Dedup(b + extra)
  {
    if extra == [] {
      assert a + extra == a && b + extra == b;
    } else {
      var front := extra[..|extra| - 1];
      var last := extra[|extra| - 1];
      assert (a + extra)[..|a + extra| - 1] == a + front && (a + extra)[|a + extra| - 1] == last;
      assert (b + extra)[..|b + extra| - 1] == b + front && (b + extra)[|b + extra| - 1] == last;
      DedupAppendCongruent(a, b, front);
      DedupKeys(a + front);
      DedupKeys(b + front);
    }
  }

  /** Two records with different keys both survive, in order. */
  lemma DedupTwo(a: MatchRecord, b: MatchRecord)
    requires Key(a) != Key(b)
    ensures Dedup([a, b]) == [a, b]
  {
    assert [a, b][..1] == [a];
    assert [a][..0] == [];
    assert Dedup([a]) == [a];
  }

  /** Without `|` in patterns and URLs, the key is injective on triples: the first two `|` split it. */
  lemma KeyInjective(a: MatchRecord, b: MatchRecord)
    requires '|' !in a.pattern && '|' !in a.content.url
    requires '|' !in b.pattern && '|' !in b.content.url
    ensures Key(a) == Key(b) <==> Triple(a) == Triple(b)
  {
    if Key(a) == Key(b) {
      assert Key(a) == a.pattern + "|" + (a.content.url + "|" + a.word);
      assert Key(b) == b.pattern + "|" + (b.content.url + "|" + b.word);
      SplitAtBar(a.pattern, a.content.url + "|" + a.word, b.pattern, b.content.url + "|" + b.word);
      SplitAtBar(a.content.url, a.word, b.content.url, b.word);
    }
  }

  /** `x|y == u|v` with no `|` in `x` or in `u` forces `x == u` and `y == v`. */
  lemma SplitAtBar(x: string, y: string, u: string, v: string)
    requires '|' !in x && '|' !in u
    requires x + "|" + y == u + "|" + v
    ensures x == u && y == v
  {
    var s := x + "|" + y;
    assert s[|x|] == '|';
    assert s[|u|] == '|';
    if |x| < |u| {
      assert false;
    } else if |u| < |x| {
      assert false;
    }
    assert x == s[..|x|] == u;
    assert y == s[|x| + 1..] == v;
  }

  /**
   * Under that condition every dropped record's triple is carried by a kept record: every
   * input triple survives deduplication.
   */
  lemma DedupKeepsEveryTriple(rs: seq<MatchRecord>, r: MatchRecord)
    requires forall q :: q in rs ==> '|' !in q.pattern && '|' !in q.content.url
    requires r in rs
    ensures exists s :: s in Dedup(rs) && Triple(s) == Triple(r)
  {
    DedupKeys(rs);
    assert Key(r) in KeySet(rs);
    var s :| s in Dedup(rs) && Key(s) == Key(r);
    DedupSubsequence(rs);
    SubsequenceElements(Dedup(rs), rs);
    KeyInjective(r, s);
  }

  /**
   * Without that condition the string key collides: a pattern containing `|` (regular-expression
   * alternation) and a URL containing `|` give one key for two different triples, and the
   * second record is dropped although its triple was never seen.
   */
  lemma KeyCollision()
    ensures var first := MatchRecord("a|b", Resource("c", Some("ac")), "a");
            var second := MatchRecord("a", Resource("b|c", Some("ac")), "a");
            && Triple(first) != Triple(second) && Key(first) == Key(second)
            && Dedup([first, second]) == [first]
  {
    var first := MatchRecord("a|b", Resource("c", Some("ac")), "a");
    var second := MatchRecord("a", Resource("b|c", Some("ac")), "a");
    assert Key(first) == Key(second);
    assert [first, second][..1] == [first];
    assert [first][..0] == [];
    assert Dedup([first]) == [first];
    assert Key(second) in KeySet([first]);
  }
}
