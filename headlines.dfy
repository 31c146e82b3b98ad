/** Headline post-processing of the news scraper (webscrap.py). The HTTP
    request and the HTML selection are inputs: for each CSS selector, in
    order, the texts (`get_text(strip=True)`) of the elements it matched, or
    `None` when the request or the parsing raised. */
module Headlines {
  import opened Wrappers
  import opened Text

  /** `scrape_bbc_headlines` keeps texts longer than this. */
  const BbcMinLength: nat := 10
  /** `scrape_generic_news` keeps texts longer than this. */
  const GenericMinLength: nat := 5
  /** `scrape_bbc_headlines` returns at most this many headlines. */
  const BbcLimit: nat := 15

  /** The filter of both scrapers: `text and len(text) > minLength`. */
  predicate LongEnough(text: string, minLength: nat) {
    text != "" && |text| > minLength
  }

  /** The element texts of all selectors, selector by selector. */
  function Flatten(groups: seq<seq<string>>): seq<string> {
    if groups == [] then [] else groups[0] + Flatten(groups[1..])
  }

  lemma {:induction false} FlattenSnoc(groups: seq<seq<string>>, g: seq<string>)
    ensures Flatten(groups + [g]) == Flatten(groups) + g
  {
    if groups == [] {
      assert [g][1..] == [];
    } else {
      assert (groups + [g])[1..] == groups[1..] + [g];
      FlattenSnoc(groups[1..], g);
    }
  }

  /** The texts that pass the length filter, in order. */
  function KeepLong(texts: seq<string>, minLength: nat): seq<string> {
    if texts == [] then []
    else (if LongEnough(texts[0], minLength) then [texts[0]] else []) + KeepLong(texts[1..], minLength)
  }

  lemma {:induction false} KeepLongAppend(a: seq<string>, b: seq<string>, minLength: nat)
    ensures KeepLong(a + b, minLength) == KeepLong(a, minLength) + KeepLong(b, minLength)
  {
    if a == [] {
      assert a + b == b;
    } else {
      assert (a + b)[1..] == a[1..] + b;
      KeepLongAppend(a[1..], b, minLength);
    }
  }

  /** The filter keeps exactly the candidates longer than `minLength`. */
  lemma {:induction false} KeepLongSpec(texts: seq<string>, minLength: nat)
    ensures forall h :: h in KeepLong(texts, minLength) <==> h in texts && |h| > minLength
  {
    if texts != [] {
      KeepLongSpec(texts[1..], minLength);
      assert forall h :: h in texts <==> h == texts[0] || h in texts[1..];
    }
  }

  /** No text occurs twice. */
  predicate NoRepeats(xs: seq<string>) {
    forall i, j :: 0 <= i < j < |xs| ==> xs[i] != xs[j]
  }

  /** `xs` with every occurrence of `x` taken out. */
  function Without(xs: seq<string>, x: string): (r: seq<string>)
    ensures |r| <= |xs|
    ensures forall y :: y in r <==> y in xs && y != x
  {
    if xs == [] then []
    else (if xs[0] == x then [] else [xs[0]]) + Without(xs[1..], x)
  }

  lemma {:induction false} WithoutSnoc(xs: seq<string>, y: string, x: string)
    ensures Without(xs + [y], x) == Without(xs, x) + (if y == x then [] else [y])
  {
    if xs == [] {
      assert [y][1..] == [];
    } else {
      assert (xs + [y])[1..] == xs[1..] + [y];
      WithoutSnoc(xs[1..], y, x);
    }
  }

  /** Duplicates removed, each text kept where it first occurs: the first
      text, then the rest with that text taken out. This is the reference
      for both deduplications of the scraper. */
  function Unique(xs: seq<string>): seq<string>
    decreases |xs|
  {
    if xs == [] then [] else [xs[0]] + Unique(Without(xs[1..], xs[0]))
  }

  /** Deduplicating a list with one more text at its end appends that text
      exactly when it is new. */
  lemma {:induction false} UniqueSnoc(xs: seq<string>, x: string)
    ensures Unique(xs + [x]) == if x in xs then Unique(xs) else Unique(xs) + [x]
    decreases |xs|
  {
    if xs == [] {
      assert [x][1..] == [];
      assert Unique([x]) == [x] + Unique([]);
    } else {
      var y, ys := xs[0], xs[1..];
      assert (xs + [x])[0] == y;
      assert (xs + [x])[1..] == ys + [x];
      WithoutSnoc(ys, x, y);
      var w := Without(ys, y);
      if x == y {
        assert Without(ys + [x], y) == w;
      } else {
        assert Without(ys + [x], y) == w + [x];
        UniqueSnoc(w, x);
        assert x in w <==> x in xs;
      }
    }
  }

  /** The deduplicated list holds exactly the texts of the input. */
  lemma {:induction false} UniqueMembers(xs: seq<string>)
    ensures forall x :: x in Unique(xs) <==> x in xs
    ensures |Unique(xs)| <= |xs|
    decreases |xs|
  {
    if xs != [] {
      UniqueMembers(Without(xs[1..], xs[0]));
      assert forall x :: x in xs <==> x == xs[0] || x in xs[1..];
    }
  }

  /** The position of the first occurrence of `x`. */
  function FirstIndex(xs: seq<string>, x: string): (k: nat)
    requires x in xs
    ensures k < |xs| && xs[k] == x && x !in xs[..k]
  {
    if xs[0] == x then 0 else 1 + FirstIndex(xs[1..], x)
  }

  lemma {:induction false} FirstIndexSnoc(xs: seq<string>, y: string, x: string)
    requires x in xs + [y]
    ensures FirstIndex(xs + [y], x) == if x in xs then FirstIndex(xs, x) else |xs|
  {
    var k := FirstIndex(xs + [y], x);
    assert (xs + [y])[..k] == if k <= |xs| then xs[..k] else xs + [y];
    if x in xs {
      var m := FirstIndex(xs, x);
      assert (xs + [y])[m] == x;
      assert xs[..k] == (xs + [y])[..k];
    }
  }

  /** The deduplicated list has no repeats and lists the texts in the order
      of their first occurrences. */
  lemma {:induction false} UniqueOrder(xs: seq<string>)
    ensures NoRepeats(Unique(xs))
    ensures forall i, j :: 0 <= i < j < |Unique(xs)| ==>
              Unique(xs)[i] in xs && Unique(xs)[j] in xs &&
              FirstIndex(xs, Unique(xs)[i]) < FirstIndex(xs, Unique(xs)[j])
    decreases |xs|
  {
    if xs != [] {
      var p, x := xs[..|xs| - 1], xs[|xs| - 1];
      assert xs == p + [x];
      UniqueOrder(p);
      UniqueSnoc(p, x);
      UniqueMembers(p);
      var u := Unique(xs);
      forall i, j | 0 <= i < j < |u|
        ensures u[i] != u[j]
        ensures u[i] in xs && u[j] in xs && FirstIndex(xs, u[i]) < FirstIndex(xs, u[j])
      {
        assert u[i] in p;
        FirstIndexSnoc(p, x, u[i]);
        FirstIndexSnoc(p, x, u[j]);
      }
    }
  }

  /** The deduplication loop of `scrape_bbc_headlines`: a `seen` set and a
      growing list. */
  method DedupKeepingOrder(headlines: seq<string>) returns (unique: seq<string>)
    ensures unique == Unique(headlines) == FromKeys(headlines)
    ensures NoRepeats(unique)
    ensures forall h :: h in unique <==> h in headlines
  {
    var seen: set<string> := {};
    unique := [];
    for i := 0 to |headlines|
      invariant forall h :: h in seen <==> h in headlines[..i]
      invariant unique == Unique(headlines[..i])
    {
      var headline := headlines[i];
      assert headlines[..i + 1] == headlines[..i] + [headline];
      UniqueSnoc(headlines[..i], headline);
      if headline !in seen {
        seen := seen + {headline};
        unique := unique + [headline];
      }
    }
    WholeSeq(headlines);
    FromKeysIsUnique(headlines);
    UniqueOrder(headlines);
    UniqueMembers(headlines);
  }

  /** `list(dict.fromkeys(keys))`: the keys of a dict filled in iteration
      order. Assigning a key that is already present keeps its place, so a
      key is added to the order only the first time. */
  function FromKeysInto(order: seq<string>, keys: seq<string>): seq<string>
    decreases |keys|
  {
    if keys == [] then order
    else FromKeysInto(if keys[0] in order then order else order + [keys[0]], keys[1..])
  }

  function FromKeys(keys: seq<string>): seq<string> {
    FromKeysInto([], keys)
  }

  lemma {:induction false} FromKeysIntoUnique(done: seq<string>, keys: seq<string>)
    ensures FromKeysInto(Unique(done), keys) == Unique(done + keys)
    decreases |keys|
  {
    if keys == [] {
      assert done + keys == done;
    } else {
      var k, more := keys[0], keys[1..];
      var next := Unique(done + [k]);
      assert FromKeysInto(Unique(done), keys) == FromKeysInto(next, more) by {
        FromKeysStep(done, k);
      }
      assert FromKeysInto(next, more) == Unique(done + [k] + more) by {
        FromKeysIntoUnique(done + [k], more);
      }
      assert done + [k] + more == done + keys;
    }
  }

  /** Assigning one more key to a dict whose keys are `Unique(done)`. */
  lemma FromKeysStep(done: seq<string>, k: string)
    ensures (if k in Unique(done) then Unique(done) else Unique(done) + [k]) == Unique(done + [k])
  {
    UniqueMembers(done);
    UniqueSnoc(done, k);
  }

  /** The `dict.fromkeys` deduplication of `scrape_generic_news` gives the
      same list as the seen-set loop of `scrape_bbc_headlines`. */
  lemma FromKeysIsUnique(keys: seq<string>)
    ensures FromKeys(keys) == Unique(keys)
  {
    FromKeysIntoUnique([], keys);
    assert [] + keys == keys;
  }

  /** The selection loops common to both scrapers: every element text of
      every selector, in order, that passes the length filter. */
  method CollectCandidates(selected: seq<seq<string>>, minLength: nat) returns (headlines: seq<string>)
    ensures headlines == KeepLong(Flatten(selected), minLength)
  {
    headlines := [];
    for i := 0 to |selected|
      invariant headlines == KeepLong(Flatten(selected[..i]), minLength)
    {
      var elements := selected[i];
      assert Flatten(selected[..i]) + elements[..0] == Flatten(selected[..i]);
      for j := 0 to |elements|
        invariant headlines == KeepLong(Flatten(selected[..i]) + elements[..j], minLength)
      {
        var text := elements[j];
        assert elements[..j + 1] == elements[..j] + [text];
        assert Flatten(selected[..i]) + elements[..j + 1] == (Flatten(selected[..i]) + elements[..j]) + [text];
        KeepLongAppend(Flatten(selected[..i]) + elements[..j], [text], minLength);
        assert KeepLong([text], minLength) == (if LongEnough(text, minLength) then [text] else []) + KeepLong([], minLength);
        if text != "" && |text| > minLength {
          headlines := headlines + [text];
        }
      }
      assert elements[..|elements|] == elements;
      assert selected[..i + 1] == selected[..i] + [elements];
      FlattenSnoc(selected[..i], elements);
    }
    assert selected[..|selected|] == selected;
  }

  /** `unique_headlines[:n]`. */
  function Take(xs: seq<string>, n: nat): (r: seq<string>)
    ensures |r| <= |xs| && r == xs[..|r|]
    ensures |r| == if |xs| <= n then |xs| else n
  {
    if |xs| <= n then xs else xs[..n]
  }

  /** `scrape_bbc_headlines`: the first 15 distinct candidates longer than
      10 characters; an exception gives the empty list. */
  method ScrapeBbcHeadlines(page: Option<seq<seq<string>>>) returns (headlines: seq<string>)
    ensures page.None? ==> headlines == []
    ensures page.Some? ==>
              headlines == Take(Unique(KeepLong(Flatten(page.value), BbcMinLength)), BbcLimit)
    ensures |headlines| <= BbcLimit
    ensures NoRepeats(headlines)
    ensures forall h :: h in headlines ==> |h| > BbcMinLength && page.Some? && h in Flatten(page.value)
  {
    match page
    case None =>
      return [];
    case Some(selected) =>
      var candidates := CollectCandidates(selected, BbcMinLength);
      var unique := DedupKeepingOrder(candidates);
      UniqueMembers(candidates);
      UniqueOrder(candidates);
      KeepLongSpec(Flatten(selected), BbcMinLength);
      headlines := Take(unique, BbcLimit);
      assert forall h :: h in headlines ==> h in unique;
  }

  /** `scrape_generic_news`: every distinct candidate longer than 5
      characters, in order of first occurrence; an exception gives the
      empty list. */
  method ScrapeGenericNews(page: Option<seq<seq<string>>>) returns (headlines: seq<string>)
    ensures page.None? ==> headlines == []
    ensures page.Some? ==> headlines == FromKeys(KeepLong(Flatten(page.value), GenericMinLength))
    ensures NoRepeats(headlines)
    ensures page.Some? ==> forall h :: h in headlines <==> h in Flatten(page.value) && |h| > GenericMinLength
  {
    match page
    case None =>
      return [];
    case Some(selected) =>
      var candidates := CollectCandidates(selected, GenericMinLength);
      headlines := FromKeys(candidates);
      FromKeysIsUnique(candidates);
      UniqueMembers(candidates);
      UniqueOrder(candidates);
      KeepLongSpec(Flatten(selected), GenericMinLength);
  }

  /** One numbered entry of the saved file. */
  function Entry(number: nat, headline: string): string {
    NatToString(number) + ". " + headline + "\n\n"
  }

  /** The entries for `headlines`, numbered from `first`. */
  function Entries(headlines: seq<string>, first: nat): string {
    if headlines == [] then "" else Entry(first, headlines[0]) + Entries(headlines[1..], first + 1)
  }

  lemma {:induction false} EntriesAppend(a: seq<string>, b: seq<string>, first: nat)
    ensures Entries(a + b, first) == Entries(a, first) + Entries(b, first + |a|)
  {
    if a == [] {
      assert a + b == b;
    } else {
      var head, rest := Entry(first, a[0]), a[1..];
      assert (a + b)[0] == a[0] && (a + b)[1..] == rest + b;
      assert Entries(a + b, first) == head + Entries(rest + b, first + 1);
      assert Entries(rest + b, first + 1) == Entries(rest, first + 1) + Entries(b, first + |a|) by {
        EntriesAppend(rest, b, first + 1);
      }
      assert head + (Entries(rest, first + 1) + Entries(b, first + |a|)) ==
               (head + Entries(rest, first + 1)) + Entries(b, first + |a|);
    }
  }

  /** Headline k (0-based) is listed as entry k + 1, after the entries of
      the headlines before it and before those of the ones after it. */
  lemma EntriesAt(headlines: seq<string>, k: nat)
    requires k < |headlines|
    ensures Entries(headlines, 1) ==
              Entries(headlines[..k], 1) + Entry(k + 1, headlines[k]) + Entries(headlines[k + 1..], k + 2)
  {
    var before, after := headlines[..k], headlines[k + 1..];
    var mid := [headlines[k]] + after;
    assert headlines == before + mid;
    EntriesAppend(before, mid, 1);
    assert mid[0] == headlines[k] && mid[1..] == after;
    var entry, rest := Entry(k + 1, headlines[k]), Entries(after, k + 2);
    assert Entries(mid, k + 1) == entry + rest;
    assert Entries(before, 1) + (entry + rest) == Entries(before, 1) + entry + rest;
  }

  /** One step of the writing loop of `save_headlines_to_file`. */
  lemma EntriesStep(headlines: seq<string>, i: nat)
    requires i < |headlines|
    ensures Entries(headlines[..i + 1], 1) == Entries(headlines[..i], 1) + Entry(i + 1, headlines[i])
  {
    assert headlines[..i + 1] == headlines[..i] + [headlines[i]];
    EntriesAppend(headlines[..i], [headlines[i]], 1);
    assert Entries([headlines[i]], i + 1) == Entry(i + 1, headlines[i]) + Entries([], i + 2);
  }

  function FileHeader(timestamp: string): string {
    "BBC News Headlines - " + timestamp + "\n" + Repeat('=', 60) + "\n\n"
  }

  function FileTrailer(count: nat): string {
    "\nTotal headlines scraped: " + NatToString(count)
  }

  /** The content of the file `save_headlines_to_file` writes. */
  function HeadlinesFile(timestamp: string, headlines: seq<string>): string {
    FileHeader(timestamp) + Entries(headlines, 1) + FileTrailer(|headlines|)
  }

  /** `save_headlines_to_file`: the content written, one write at a time;
      the timestamp is a parameter. */
  method SaveHeadlinesToFile(timestamp: string, headlines: seq<string>) returns (content: string)
    ensures content == HeadlinesFile(timestamp, headlines)
  {
    content := "BBC News Headlines - " + timestamp + "\n";
    content := content + Repeat('=', 60) + "\n\n";
    for i := 0 to |headlines|
      invariant content == FileHeader(timestamp) + Entries(headlines[..i], 1)
    {
      EntriesStep(headlines, i);
      var entry := NatToString(i + 1) + ". " + headlines[i] + "\n\n";
      content := content + entry;
    }
    WholeSeq(headlines);
    content := content + "\nTotal headlines scraped: " + NatToString(|headlines|);
  }
}
