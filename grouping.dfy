/**
 * The grouping pass of displayMatchedWords, without the DOM: one adjacency pass that opens a
 * new group whenever a record's (pattern, URL) pair differs from the previous record's.
 */
module Grouping {
  import opened Records
  import opened Seqs

  /**
   * One displayed list item: a (pattern, URL) pair and the matched texts listed under it.
   * Only the URL and the texts are rendered; the pattern decides where items split but its
   * text is not shown, so two adjacent items with different patterns over one URL look alike.
   */
  datatype Group = Group(pattern: string, url: string, words: seq<string>)

  /** What the word list shows: the "No matched words found." item, or the groups. */
  datatype Listing = NoMatches | Groups(groups: seq<Group>)

  /** A record, flattened to the strings the display uses. */
  type Entry = (string, string, string)

  function EntryOf(r: MatchRecord): Entry
  {
    (r.pattern, r.content.url, r.word)
  }

  /** The entries of a record sequence, in order. */
  function Entries(rs: seq<MatchRecord>): (es: seq<Entry>)
    ensures |es| == |rs|
  {
    seq(|rs|, i requires 0 <= i < |rs| => EntryOf(rs[i]))
  }

  /** The entries a group stands for: its pair with each of its matched texts. */
  function GroupEntries(g: Group): (es: seq<Entry>)
    ensures |es| == |g.words|
  {
    seq(|g.words|, k requires 0 <= k < |g.words| => (g.pattern, g.url, g.words[k]))
  }

  /** The entries of a group sequence, group after group. */
  function Flatten(gs: seq<Group>): seq<Entry>
  {
    if gs == [] then [] else Flatten(gs[..|gs| - 1]) + GroupEntries(gs[|gs| - 1])
  }

  /** The matched texts of a group sequence, group after group. */
  function AllWords(gs: seq<Group>): seq<string>
  {
    if gs == [] then [] else AllWords(gs[..|gs| - 1]) + gs[|gs| - 1].words
  }

  /** The matched texts of a record sequence, in order. */
  function Words(rs: seq<MatchRecord>): (ws: seq<string>)
    ensures |ws| == |rs|
  {
    seq(|rs|, i requires 0 <= i < |rs| => rs[i].word)
  }

  /** Every group is non-empty and adjacent groups have different (pattern, URL) pairs. */
  ghost predicate Maximal(gs: seq<Group>)
  {
    && (forall i :: 0 <= i < |gs| ==> gs[i].words != [])
    && (forall i :: 0 < i < |gs| ==> (gs[i - 1].pattern, gs[i - 1].url) != (gs[i].pattern, gs[i].url))
  }

  /** Record `r` continues the last group `gs` ends with: it has the same (pattern, URL) pair. */
  predicate JoinsLast(gs: seq<Group>, r: MatchRecord)
  {
    gs != [] && gs[|gs| - 1].pattern == r.pattern && gs[|gs| - 1].url == r.content.url
  }

  /** One step of the pass: add the record's text to the last group, or open a new group for it. */
  function Extend(gs: seq<Group>, r: MatchRecord): seq<Group>
  {
    if JoinsLast(gs, r)
    then gs[..|gs| - 1] + [gs[|gs| - 1].(words := gs[|gs| - 1].words + [r.word])]
    else gs + [Group(r.pattern, r.content.url, [r.word])]
  }

  /** The groups of a record sequence: the pass over the records, one step per record. */
  function Runs(rs: seq<MatchRecord>): seq<Group>
  {
    if rs == [] then [] else Extend(Runs(rs[..|rs| - 1]), rs[|rs| - 1])
  }

  /** The listing the word list shows for a record sequence. */
  function Display(rs: seq<MatchRecord>): Listing
  {
    if rs == [] then NoMatches else Groups(Runs(rs))
  }

  /**
   * `currentPattern` and `currentUrl` track the last list item: they are null (None) before
   * the first item and hold the last item's pair afterwards.
   */
  predicate Tracks(gs: seq<Group>, currentPattern: Option<string>, currentUrl: Option<string>)
  {
    if gs == [] then currentPattern == None && currentUrl == None
    else currentPattern == Some(gs[|gs| - 1].pattern) && currentUrl == Some(gs[|gs| - 1].url)
  }

  /**
   * The source's loop: a record whose pair differs from `currentPattern` and `currentUrl`
   * opens a new list item, and every record adds its text to the current item's matches.
   */
  method DisplayMatchedWords(matchedWords: seq<MatchRecord>) returns (listing: Listing)
    ensures listing.NoMatches? <==> matchedWords == []
    ensures listing.Groups? ==> listing.groups == Runs(matchedWords)
  {
    if |matchedWords| == 0 {
      return NoMatches;
    }
    var currentPattern: Option<string> := None;
    var currentUrl: Option<string> := None;
    var wordList: seq<Group> := [];
    var i := 0;
    while i < |matchedWords|
      invariant 0 <= i <= |matchedWords|
      invariant wordList == Runs(matchedWords[..i])
      invariant Tracks(wordList, currentPattern, currentUrl)
    {
      RunsStep(matchedWords, i);
      wordList, currentPattern, currentUrl := ShowMatch(wordList, currentPattern, currentUrl, matchedWords[i]);
      i := i + 1;
    }
    assert matchedWords[..i] == matchedWords;
    listing := Groups(wordList);
  }

  /**
   * The loop's callback for one record: open a new, empty list item when the record's pair
   * differs from the current one, then add the record's text to the last item's matches.
   */
  method ShowMatch(wordList: seq<Group>, currentPattern: Option<string>, currentUrl: Option<string>,
                   matched: MatchRecord)
    returns (shown: seq<Group>, nextPattern: Option<string>, nextUrl: Option<string>)
    requires Tracks(wordList, currentPattern, currentUrl)
    ensures shown == Extend(wordList, matched)
    ensures Tracks(shown, nextPattern, nextUrl)
  {
    shown, nextPattern, nextUrl := wordList, currentPattern, currentUrl;
    var opens := currentPattern != Some(matched.pattern) || currentUrl != Some(matched.content.url);
    assert opens == !JoinsLast(wordList, matched);
    if opens {
      nextPattern := Some(matched.pattern);
      nextUrl := Some(matched.content.url);
      shown := shown + [Group(matched.pattern, matched.content.url, [])];
    }
    var last := shown[|shown| - 1];
    shown := shown[..|shown| - 1] + [last.(words := last.words + [matched.word])];
    PassStep(wordList, matched, opens);
  }

  /**
   * One iteration of the source's loop: open an empty group when the record starts a new
   * pair, then add the record's text to the last group. That is one step of the pass, and
   * the last group then has the record's pair.
   */
  lemma PassStep(gs: seq<Group>, r: MatchRecord, opens: bool)
    requires opens == !JoinsLast(gs, r)
    ensures var w := if opens then gs + [Group(r.pattern, r.content.url, [])] else gs;
            && w != []
            && w[..|w| - 1] + [w[|w| - 1].(words := w[|w| - 1].words + [r.word])] == Extend(gs, r)
            && Extend(gs, r)[|Extend(gs, r)| - 1].pattern == r.pattern
            && Extend(gs, r)[|Extend(gs, r)| - 1].url == r.content.url
  {
    if opens {
      var w := gs + [Group(r.pattern, r.content.url, [])];
      assert w[..|w| - 1] == gs;
      assert [] + [r.word] == [r.word];
    }
  }

  /** Two records with the same pair form one group listing both texts. */
  lemma RunsTwo(a: MatchRecord, b: MatchRecord)
    requires PairOf(a) == PairOf(b)
    ensures Runs([a, b]) == [Group(a.pattern, a.content.url, [a.word, b.word])]
  {
    assert [a, b][..1] == [a];
    assert [a][..0] == [];
    assert Runs([a]) == [Group(a.pattern, a.content.url, [a.word])];
    assert [a.word] + [b.word] == [a.word, b.word];
    assert [Group(a.pattern, a.content.url, [a.word])][..0] == [];
  }

  lemma RunsStep(rs: seq<MatchRecord>, i: nat)
    requires i < |rs|
    ensures Runs(rs[..i + 1]) == Extend(Runs(rs[..i]), rs[i])
  {
    assert rs[..i + 1][..i] == rs[..i];
  }

  lemma RunsSnoc(rs: seq<MatchRecord>, r: MatchRecord)
    ensures Runs(rs + [r]) == Extend(Runs(rs), r)
  {
    assert (rs + [r])[..|rs|] == rs;
  }

  lemma FlattenSnoc(gs: seq<Group>, g: Group)
    ensures Flatten(gs + [g]) == Flatten(gs) + GroupEntries(g)
  {
    assert (gs + [g])[..|gs|] == gs;
  }

  lemma AllWordsSnoc(gs: seq<Group>, g: Group)
    ensures AllWords(gs + [g]) == AllWords(gs) + g.words
  {
    assert (gs + [g])[..|gs|] == gs;
  }

  lemma EntriesSnoc(rs: seq<MatchRecord>, r: MatchRecord)
    ensures Entries(rs + [r]) == Entries(rs) + [EntryOf(r)]
  {
  }

  lemma WordsSnoc(rs: seq<MatchRecord>, r: MatchRecord)
    ensures Words(rs + [r]) == Words(rs) + [r.word]
  {
  }

  lemma GroupEntriesSnoc(g: Group, w: string)
    ensures GroupEntries(g.(words := g.words + [w])) == GroupEntries(g) + [(g.pattern, g.url, w)]
  {
  }

  /**
   * Concatenation and keys: listing every group's pair with each of its texts, group after
   * group, reproduces the records' (pattern, URL, text) entries exactly.
   */
  lemma {:induction false} RunsFlatten(rs: seq<MatchRecord>)
    ensures Flatten(Runs(rs)) == Entries(rs)
  {
    if rs != [] {
      var prefix := rs[..|rs| - 1];
      var r := rs[|rs| - 1];
      assert rs == prefix + [r];
      RunsFlatten(prefix);
      EntriesSnoc(prefix, r);
      ExtendFlatten(Runs(prefix), r);
    }
  }

  /** One step adds exactly the record's entry at the end of the groups' entries. */
  lemma ExtendFlatten(gs: seq<Group>, r: MatchRecord)
    ensures Flatten(Extend(gs, r)) == Flatten(gs) + [EntryOf(r)]
  {
    if JoinsLast(gs, r) {
      var front := gs[..|gs| - 1];
      var g := gs[|gs| - 1];
      assert gs == front + [g];
      FlattenSnoc(front, g);
      FlattenSnoc(front, g.(words := g.words + [r.word]));
      GroupEntriesSnoc(g, r.word);
    } else {
      FlattenSnoc(gs, Group(r.pattern, r.content.url, [r.word]));
    }
  }

  /** The groups' texts, group after group, are the records' texts in order. */
  lemma {:induction false} RunsWords(rs: seq<MatchRecord>)
    ensures AllWords(Runs(rs)) == Words(rs)
  {
    if rs != [] {
      var prefix := rs[..|rs| - 1];
      var r := rs[|rs| - 1];
      assert rs == prefix + [r];
      RunsWords(prefix);
      WordsSnoc(prefix, r);
      ExtendWords(Runs(prefix), r);
    }
  }

  /** One step adds exactly the record's text at the end of the groups' texts. */
  lemma ExtendWords(gs: seq<Group>, r: MatchRecord)
    ensures AllWords(Extend(gs, r)) == AllWords(gs) + [r.word]
  {
    if JoinsLast(gs, r) {
      var front := gs[..|gs| - 1];
      var g := gs[|gs| - 1];
      assert gs == front + [g];
      AllWordsSnoc(front, g);
      AllWordsSnoc(front, g.(words := g.words + [r.word]));
    } else {
      AllWordsSnoc(gs, Group(r.pattern, r.content.url, [r.word]));
    }
  }

  /** The last group's pair is the last record's pair. */
  lemma RunsLast(rs: seq<MatchRecord>)
    requires rs != []
    ensures Runs(rs) != []
    ensures Runs(rs)[|Runs(rs)| - 1].pattern == rs[|rs| - 1].pattern
    ensures Runs(rs)[|Runs(rs)| - 1].url == rs[|rs| - 1].content.url
  {
  }

  /** Boundaries: every group is non-empty and adjacent groups never share a pair. */
  lemma {:induction false} RunsMaximal(rs: seq<MatchRecord>)
    ensures Maximal(Runs(rs))
  {
    if rs != [] {
      RunsMaximal(rs[..|rs| - 1]);
    }
  }

  /** The groups with their last text taken off, and the last group too when that empties it. */
  function DropLastWord(gs: seq<Group>): seq<Group>
    requires gs != [] && gs[|gs| - 1].words != []
  {
    var g := gs[|gs| - 1];
    if |g.words| == 1 then gs[..|gs| - 1]
    else gs[..|gs| - 1] + [g.(words := g.words[..|g.words| - 1])]
  }

  lemma FlattenDropLastWord(gs: seq<Group>)
    requires gs != [] && gs[|gs| - 1].words != []
    ensures var g := gs[|gs| - 1];
            && Flatten(gs) == Flatten(DropLastWord(gs)) + [(g.pattern, g.url, g.words[|g.words| - 1])]
  {
    var front := gs[..|gs| - 1];
    var g := gs[|gs| - 1];
    assert gs == front + [g];
    FlattenSnoc(front, g);
    if |g.words| == 1 {
      assert GroupEntries(g) == [(g.pattern, g.url, g.words[0])];
    } else {
      var g' := g.(words := g.words[..|g.words| - 1]);
      FlattenSnoc(front, g');
      assert g'.(words := g'.words + [g.words[|g.words| - 1]]) == g;
      GroupEntriesSnoc(g', g.words[|g.words| - 1]);
    }
  }

  lemma ExtendDropLastWord(gs: seq<Group>, r: MatchRecord)
    requires Maximal(gs) && gs != []
    requires EntryOf(r) == (gs[|gs| - 1].pattern, gs[|gs| - 1].url, gs[|gs| - 1].words[|gs[|gs| - 1].words| - 1])
    ensures Maximal(DropLastWord(gs))
    ensures Extend(DropLastWord(gs), r) == gs
  {
    var front := gs[..|gs| - 1];
    var g := gs[|gs| - 1];
    assert forall i :: 0 <= i < |front| ==> front[i] == gs[i];
    if |g.words| == 1 {
      assert g == Group(r.pattern, r.content.url, [r.word]);
      assert front != [] ==> front[|front| - 1] == gs[|gs| - 2];
    } else {
      var g' := g.(words := g.words[..|g.words| - 1]);
      var gs' := front + [g'];
      assert forall i :: 0 <= i < |front| ==> gs'[i] == gs[i];
      assert gs'[..|gs'| - 1] == front;
      assert g'.(words := g'.words + [r.word]) == g;
    }
  }

  /**
   * The grouping is the only one with those properties: any non-empty, adjacent-distinct
   * group sequence whose entries are the records' entries is the result of the pass.
   */
  lemma {:induction false} RunsUnique(rs: seq<MatchRecord>, gs: seq<Group>)
    requires Maximal(gs) && Flatten(gs) == Entries(rs)
    ensures gs == Runs(rs)
  {
    if gs == [] {
      assert |Entries(rs)| == 0;
    } else {
      assert gs[|gs| - 1].words != [];
      PeelLast(rs, gs);
      ExtendDropLastWord(gs, rs[|rs| - 1]);
      RunsUnique(rs[..|rs| - 1], DropLastWord(gs));
    }
  }

  /** The last entry of a grouping of `rs` is the last record's entry, and the rest group the rest. */
  lemma {:induction false} PeelLast(rs: seq<MatchRecord>, gs: seq<Group>)
    requires gs != [] && gs[|gs| - 1].words != [] && Flatten(gs) == Entries(rs)
    ensures rs != [] && Flatten(DropLastWord(gs)) == Entries(rs[..|rs| - 1])
    ensures var g := gs[|gs| - 1]; EntryOf(rs[|rs| - 1]) == (g.pattern, g.url, g.words[|g.words| - 1])
  {
    var g := gs[|gs| - 1];
    var e := (g.pattern, g.url, g.words[|g.words| - 1]);
    FlattenDropLastWord(gs);
    assert |Entries(rs)| == |Flatten(DropLastWord(gs))| + 1;
    var prefix := rs[..|rs| - 1];
    var r := rs[|rs| - 1];
    assert rs == prefix + [r];
    EntriesSnoc(prefix, r);
    SnocCancel(Flatten(DropLastWord(gs)), e, Entries(prefix), EntryOf(r));
  }

  /** A group sequence in which no (pattern, URL) pair is listed twice. */
  ghost predicate PairsDistinct(gs: seq<Group>)
  {
    forall i, j :: 0 <= i < j < |gs| ==> (gs[i].pattern, gs[i].url) != (gs[j].pattern, gs[j].url)
  }

  function PairOf(r: MatchRecord): (string, string)
  {
    (r.pattern, r.content.url)
  }

  /**
   * The records of each (pattern, URL) pair form one contiguous run: a record whose pair
   * occurred earlier has that pair on the record just before it too.
   */
  ghost predicate Contiguous(rs: seq<MatchRecord>)
  {
    forall i, k :: 0 <= i < k < |rs| && PairOf(rs[i]) == PairOf(rs[k]) ==> PairOf(rs[k - 1]) == PairOf(rs[k])
  }

  /** Contiguity seen from a whole run: every record between two records of a pair has that pair. */
  lemma {:induction false} ContiguousBetween(rs: seq<MatchRecord>, i: nat, j: nat, k: nat)
    requires Contiguous(rs) && i < j < k < |rs| && PairOf(rs[i]) == PairOf(rs[k])
    ensures PairOf(rs[j]) == PairOf(rs[k])
    decreases k - j
  {
    assert PairOf(rs[k - 1]) == PairOf(rs[k]);
    if j < k - 1 {
      ContiguousBetween(rs, i, j, k - 1);
    }
  }

  /** The pairs of the groups are the pairs of the records. */
  lemma {:induction false} RunsPairs(rs: seq<MatchRecord>)
    ensures forall g :: g in Runs(rs) ==> exists i :: 0 <= i < |rs| && PairOf(rs[i]) == (g.pattern, g.url)
  {
    if rs != [] {
      var prefix := rs[..|rs| - 1];
      RunsPairs(prefix);
      var gs := Runs(prefix);
      var r := rs[|rs| - 1];
      forall g | g in Runs(rs) ensures exists i :: 0 <= i < |rs| && PairOf(rs[i]) == (g.pattern, g.url) {
        if g in gs {
          var i :| 0 <= i < |prefix| && PairOf(prefix[i]) == (g.pattern, g.url);
          assert rs[i] == prefix[i];
        } else {
          assert PairOf(rs[|rs| - 1]) == (g.pattern, g.url);
        }
      }
    }
  }

  /** A record that does not join the last group has a pair no group has so far. */
  lemma FreshPair(rs: seq<MatchRecord>, r: MatchRecord)
    requires Contiguous(rs + [r]) && !JoinsLast(Runs(rs), r)
    ensures forall i :: 0 <= i < |Runs(rs)| ==> (Runs(rs)[i].pattern, Runs(rs)[i].url) != PairOf(r)
  {
    var gs := Runs(rs);
    var all := rs + [r];
    RunsPairs(rs);
    if rs != [] {
      RunsLast(rs);
    }
    forall i | 0 <= i < |gs| ensures (gs[i].pattern, gs[i].url) != PairOf(r) {
      assert gs[i] in gs;
      var k :| 0 <= k < |rs| && PairOf(rs[k]) == (gs[i].pattern, gs[i].url);
      assert all[k] == rs[k] && all[|rs| - 1] == rs[|rs| - 1] && all[|rs|] == r;
      assert PairOf(all[k]) != PairOf(all[|rs|]);
    }
  }

  /** When every pair's records are contiguous, every pair gets exactly one group. */
  lemma {:induction false} RunsPairsDistinct(rs: seq<MatchRecord>)
    requires Contiguous(rs)
    ensures PairsDistinct(Runs(rs))
  {
    if rs != [] {
      var prefix := rs[..|rs| - 1];
      var r := rs[|rs| - 1];
      assert rs == prefix + [r];
      assert Contiguous(prefix) by {
        assert forall i :: 0 <= i < |prefix| ==> prefix[i] == rs[i];
      }
      RunsPairsDistinct(prefix);
      if !JoinsLast(Runs(prefix), r) {
        FreshPair(prefix, r);
      }
      ExtendPairsDistinct(Runs(prefix), r);
    }
  }

  /** A step keeps the groups' pairs distinct when a record that opens a group brings a new pair. */
  lemma ExtendPairsDistinct(gs: seq<Group>, r: MatchRecord)
    requires PairsDistinct(gs)
    requires !JoinsLast(gs, r) ==> forall i :: 0 <= i < |gs| ==> (gs[i].pattern, gs[i].url) != PairOf(r)
    ensures PairsDistinct(Extend(gs, r))
  {
    var hs := Extend(gs, r);
    if JoinsLast(gs, r) {
      assert |hs| == |gs|;
      assert forall i :: 0 <= i < |gs| ==> (hs[i].pattern, hs[i].url) == (gs[i].pattern, gs[i].url);
    } else {
      assert forall i :: 0 <= i < |gs| ==> hs[i] == gs[i];
    }
  }

  /** A subsequence of a contiguous sequence is contiguous: dropping records keeps runs together. */
  lemma ContiguousSubsequence(a: seq<MatchRecord>, b: seq<MatchRecord>)
    requires Contiguous(b) && IsSubsequence(a, b)
    ensures Contiguous(a)
  {
    var idx :| Embeds(a, b, idx);
    forall i, k | 0 <= i < k < |a| && PairOf(a[i]) == PairOf(a[k])
      ensures PairOf(a[k - 1]) == PairOf(a[k])
    {
      assert a[i] == b[idx[i]] && a[k - 1] == b[idx[k - 1]] && a[k] == b[idx[k]];
      if i < k - 1 {
        ContiguousBetween(b, idx[i], idx[k - 1], idx[k]);
      }
    }
  }

  /** Two contiguous sequences with no pair in common are contiguous together. */
  lemma ContiguousAppend(a: seq<MatchRecord>, b: seq<MatchRecord>)
    requires Contiguous(a) && Contiguous(b)
    requires forall i, j :: 0 <= i < |a| && 0 <= j < |b| ==> PairOf(a[i]) != PairOf(b[j])
    ensures Contiguous(a + b)
  {
    var s := a + b;
    forall i, k | 0 <= i < k < |s| && PairOf(s[i]) == PairOf(s[k])
      ensures PairOf(s[k - 1]) == PairOf(s[k])
    {
      if k < |a| {
        assert s[i] == a[i] && s[k - 1] == a[k - 1] && s[k] == a[k];
      } else if i >= |a| {
        assert s[i] == b[i - |a|] && s[k - 1] == b[k - 1 - |a|] && s[k] == b[k - |a|];
      } else {
        assert false;
      }
    }
  }
}
