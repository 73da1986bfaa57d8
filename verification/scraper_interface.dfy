/**
 * The data side of the scraper's page: the distinct addresses of the
 * scrape's result, their chunking for Etherscan, and the two text
 * renderings shown to the user. Component state, hooks and input parsing
 * are outside this model; the two numeric inputs are plain parameters.
 */
module ScraperInterface {

  import opened Wrappers
  import opened Text
  import opened ArrayUtils
  import opened Scraper

  /** The initial Etherscan chunk size. */
  const DefaultChunkSize: int := 100

  /** The initial number of tokens; zero means "no amount column". */
  const DefaultNumberOfTokens: int := 0

  predicate NoDuplicates<T(==)>(xs: seq<T>) {
    forall i, j :: 0 <= i < j < |xs| ==> xs[i] != xs[j]
  }

  /**
   * `[...new Set(xs)]`: each distinct string once, at the place of its first
   * occurrence. Strings are compared exactly, so case variants stay apart.
   */
  function Dedup(xs: seq<string>): (r: seq<string>)
    ensures forall x :: x in r <==> x in xs
    ensures NoDuplicates(r)
  {
    if |xs| == 0 then []
    else
      var seen := Dedup(xs[..|xs| - 1]);
      var x := xs[|xs| - 1];
      assert forall y :: y in xs <==> y in xs[..|xs| - 1] || y == x by {
        assert xs == xs[..|xs| - 1] + [x];
      }
      if x in seen then seen else seen + [x]
  }

  /** The first occurrence of an element of a prefix is found inside that prefix. */
  lemma {:induction false} IndexOfPrefix<T>(p: seq<T>, q: seq<T>, x: T)
    requires x in p
    ensures x in p + q && IndexOf(p + q, x) == IndexOf(p, x)
    decreases |p|
  {
    if p[0] != x {
      assert (p + q)[1..] == p[1..] + q;
      IndexOfPrefix(p[1..], q, x);
    }
  }

  /** An element new to a prefix first occurs right after it. */
  lemma IndexOfNew<T>(p: seq<T>, x: T)
    requires x !in p
    ensures x in p + [x] && IndexOf(p + [x], x) == |p|
  {
    assert (p + [x])[|p|] == x;
    assert (p + [x])[..|p|] == p;
  }

  /** The distinct strings come in the order of their first occurrences. */
  lemma {:induction false} DedupFirstOccurrenceOrder(xs: seq<string>)
    ensures forall i, j :: 0 <= i < j < |Dedup(xs)| ==>
      Dedup(xs)[i] in xs && Dedup(xs)[j] in xs && IndexOf(xs, Dedup(xs)[i]) < IndexOf(xs, Dedup(xs)[j])
    decreases |xs|
  {
    if |xs| > 0 {
      var init := xs[..|xs| - 1];
      var x := xs[|xs| - 1];
      var seen := Dedup(init);
      var r := Dedup(xs);
      DedupFirstOccurrenceOrder(init);
      assert xs == init + [x];
      forall i, j | 0 <= i < j < |r|
        ensures r[i] in xs && r[j] in xs && IndexOf(xs, r[i]) < IndexOf(xs, r[j])
      {
        assert r[i] == seen[i];
        IndexOfPrefix(init, [x], seen[i]);
        if j < |seen| {
          assert r[j] == seen[j];
          IndexOfPrefix(init, [x], seen[j]);
        } else {
          assert r == seen + [x] && r[j] == x && x !in init;
          IndexOfNew(init, x);
        }
      }
      assert r == Dedup(xs);
    } else {
      assert Dedup(xs) == [];
    }
  }

  /** The addresses of the scrape's result, in order. */
  function Addrs(addresses: seq<AddressInfo>): (r: seq<string>)
    ensures |r| == |addresses|
    ensures forall i :: 0 <= i < |addresses| ==> r[i] == addresses[i].addr
  {
    seq(|addresses|, i requires 0 <= i < |addresses| => addresses[i].addr)
  }

  /** `cleanedAddresses`: the distinct `addr` strings of the result, without repeats. */
  function CleanedAddresses(addresses: seq<AddressInfo>): (r: seq<string>)
    ensures NoDuplicates(r)
    ensures forall x :: x in r <==> exists i :: 0 <= i < |addresses| && addresses[i].addr == x
  {
    var all := Addrs(addresses);
    assert forall i :: 0 <= i < |addresses| ==> all[i] in all;
    Dedup(all)
  }

  /** `addressChunks`: `chunk(cleanedAddresses, etherscanChunkSize)` for any integer size. */
  function AddressChunks(cleaned: seq<string>, size: int): (r: Option<seq<seq<string>>>)
    ensures r.None? <==> size == 0 && |cleaned| > 0
    ensures size > 0 ==> r.Some? && Flatten(r.value) == cleaned
    ensures size > 0 ==> forall k :: 0 <= k < |r.value| ==> 1 <= |r.value[k]| <= size
  {
    ChunkChecked(cleaned, size)
  }

  /** With the initial size, the chunks exist, hold at most 100 addresses each and concatenate to the list. */
  lemma DefaultChunksCover(cleaned: seq<string>)
    ensures AddressChunks(cleaned, DefaultChunkSize).Some?
    ensures Flatten(AddressChunks(cleaned, DefaultChunkSize).value) == cleaned
    ensures forall k :: 0 <= k < |AddressChunks(cleaned, DefaultChunkSize).value| ==>
      1 <= |AddressChunks(cleaned, DefaultChunkSize).value[k]| <= 100
  {
    ChunkSizes(cleaned, 100);
  }

  /** One line of the collected-address text. The template never interpolates the address. */
  function CollectedLine(addr: string, numberOfTokens: int): (line: string)
    ensures numberOfTokens == 0 ==> line == addr
    ensures numberOfTokens != 0 ==> Split(line, ',') == ["addr", IntToString(numberOfTokens)]
  {
    if numberOfTokens != 0 then
      var amount := IntToString(numberOfTokens);
      assert ',' !in amount by {
        assert forall k :: 0 <= k < |amount| ==> amount[k] != ',';
      }
      assert "addr," + amount == Join(["addr", amount], ',');
      SplitJoin(["addr", amount], ',');
      "addr," + amount
    else addr
  }

  function CollectedLines(cleaned: seq<string>, numberOfTokens: int): (lines: seq<string>)
    ensures |lines| == |cleaned|
    ensures forall i :: 0 <= i < |cleaned| ==> lines[i] == CollectedLine(cleaned[i], numberOfTokens)
  {
    seq(|cleaned|, i requires 0 <= i < |cleaned| => CollectedLine(cleaned[i], numberOfTokens))
  }

  /** The "Collected Addresses" text: one line per distinct address. */
  function CollectedText(cleaned: seq<string>, numberOfTokens: int): (text: string)
  {
    Join(CollectedLines(cleaned, numberOfTokens), '\n')
  }

  /** With the initial amount of zero, splitting the text at line breaks gives the addresses back. */
  lemma CollectedTextWithoutTokens(cleaned: seq<string>)
    requires |cleaned| >= 1
    requires forall i :: 0 <= i < |cleaned| ==> '\n' !in cleaned[i]
    ensures Split(CollectedText(cleaned, DefaultNumberOfTokens), '\n') == cleaned
  {
    var lines := CollectedLines(cleaned, DefaultNumberOfTokens);
    assert lines == cleaned;
    SplitJoin(lines, '\n');
  }

  /**
   * With a non-zero amount, the text has one line per address and every line
   * is `addr,<amount>`: the addresses themselves do not appear, so any two
   * lists of the same length render alike.
   */
  lemma CollectedTextWithTokens(cleaned: seq<string>, other: seq<string>, numberOfTokens: int)
    requires |cleaned| >= 1 && numberOfTokens != 0
    ensures var lines := Split(CollectedText(cleaned, numberOfTokens), '\n');
      |lines| == |cleaned|
      && forall i :: 0 <= i < |lines| ==> lines[i] == "addr," + IntToString(numberOfTokens)
    ensures |other| == |cleaned| ==> CollectedText(other, numberOfTokens) == CollectedText(cleaned, numberOfTokens)
  {
    var lines := CollectedLines(cleaned, numberOfTokens);
    forall i | 0 <= i < |lines|
      ensures '\n' !in lines[i]
    {
      assert lines[i] == "addr," + IntToString(numberOfTokens);
      assert forall k :: 0 <= k < |lines[i]| ==> lines[i][k] != '\n';
    }
    SplitJoin(lines, '\n');
    if |other| == |cleaned| {
      assert CollectedLines(other, numberOfTokens) == lines;
    }
  }

  /** The line the amount column was evidently meant to hold: the address, a comma, the amount. */
  function DisperseLine(addr: string, numberOfTokens: int): (line: string)
  {
    if numberOfTokens != 0 then addr + "," + IntToString(numberOfTokens) else addr
  }

  function DisperseLines(cleaned: seq<string>, numberOfTokens: int): (lines: seq<string>)
    ensures |lines| == |cleaned|
    ensures forall i :: 0 <= i < |cleaned| ==> lines[i] == DisperseLine(cleaned[i], numberOfTokens)
  {
    seq(|cleaned|, i requires 0 <= i < |cleaned| => DisperseLine(cleaned[i], numberOfTokens))
  }

  /** The collected-address text with the address interpolated into each line. */
  function DisperseText(cleaned: seq<string>, numberOfTokens: int): (text: string)
  {
    Join(DisperseLines(cleaned, numberOfTokens), '\n')
  }

  /**
   * Each line of the interpolated text splits at its comma into the address
   * and the amount, so the address list can be read back from the text.
   */
  lemma DisperseTextRecoversAddresses(cleaned: seq<string>, numberOfTokens: int)
    requires |cleaned| >= 1 && numberOfTokens != 0
    requires forall i :: 0 <= i < |cleaned| ==> '\n' !in cleaned[i] && ',' !in cleaned[i]
    ensures var lines := Split(DisperseText(cleaned, numberOfTokens), '\n');
      |lines| == |cleaned|
      && forall i :: 0 <= i < |lines| ==>
        Split(lines[i], ',') == [cleaned[i], IntToString(numberOfTokens)]
  {
    var amount := IntToString(numberOfTokens);
    var lines := DisperseLines(cleaned, numberOfTokens);
    assert ',' !in amount && '\n' !in amount by {
      assert forall k :: 0 <= k < |amount| ==> amount[k] != '\n' && amount[k] != ',';
    }
    forall i | 0 <= i < |lines|
      ensures '\n' !in lines[i]
      ensures Split(lines[i], ',') == [cleaned[i], amount]
    {
      assert lines[i] == Join([cleaned[i], amount], ',');
      JoinExcludes([cleaned[i], amount], ',', '\n');
      SplitJoin([cleaned[i], amount], ',');
    }
    SplitJoin(lines, '\n');
  }

  /** An Etherscan line: the chunk's addresses joined by commas, in brackets. */
  function Bracketed(chunk: seq<string>): (line: string)
    ensures |line| >= 2 && line[0] == '[' && line[|line| - 1] == ']'
  {
    "[" + Join(chunk, ',') + "]"
  }

  /** The bracketed chunk lines of the Etherscan text, in order. */
  function BracketedLines(chunks: seq<seq<string>>): (lines: seq<string>)
    ensures |lines| == |chunks|
    ensures forall k :: 0 <= k < |chunks| ==> lines[k] == Bracketed(chunks[k])
  {
    seq(|chunks|, k requires 0 <= k < |chunks| => Bracketed(chunks[k]))
  }

  /**
   * The "Etherscan format" text: one bracketed line per chunk. A zero size
   * with a non-empty list makes `chunk` throw, which gives no text here.
   */
  function EtherscanText(cleaned: seq<string>, size: int): (r: Option<string>)
    ensures r.None? <==> size == 0 && |cleaned| > 0
    ensures size < 0 ==> r == Some("")
  {
    match AddressChunks(cleaned, size)
    case None => None
    case Some(chunks) => Some(Join(BracketedLines(chunks), '\n'))
  }

  /** Reading the Etherscan text back: split into lines, strip the brackets, split at commas, concatenate. */
  function ParseEtherscan(text: string): (addrs: seq<string>)
  {
    Flatten(ParseLines(Split(text, '\n')))
  }

  /** Each line with its brackets stripped, split at commas. */
  function ParseLines(lines: seq<string>): (items: seq<seq<string>>)
    ensures |items| == |lines|
    ensures forall k :: 0 <= k < |lines| ==> items[k] == Split(Unbracket(lines[k]), ',')
  {
    seq(|lines|, k requires 0 <= k < |lines| => Split(Unbracket(lines[k]), ','))
  }

  function Unbracket(line: string): (inner: string)
    ensures |line| >= 2 ==> line == [line[0]] + inner + [line[|line| - 1]]
  {
    if |line| >= 2 then line[1..|line| - 1] else line
  }

  /** Every chunk is non-empty and its items are items of the list. */
  lemma ChunkItems(cleaned: seq<string>, size: nat, k: nat)
    requires size > 0 && k < |Chunk(cleaned, size)|
    ensures |Chunk(cleaned, size)[k]| >= 1
    ensures forall i :: 0 <= i < |Chunk(cleaned, size)[k]| ==> Chunk(cleaned, size)[k][i] in cleaned
  {
    ChunkAtIndex(cleaned, size, k);
    var o := Offset(k, size);
    var c := Chunk(cleaned, size)[k];
    forall i | 0 <= i < |c|
      ensures c[i] in cleaned
    {
      assert c[i] == cleaned[o + i];
    }
  }

  /** A bracketed line of a non-empty chunk is a single line, and stripping and splitting it gives the chunk back. */
  lemma BracketedParse(chunk: seq<string>)
    requires |chunk| >= 1
    requires forall i :: 0 <= i < |chunk| ==> '\n' !in chunk[i] && ',' !in chunk[i]
    ensures '\n' !in Bracketed(chunk)
    ensures Split(Unbracket(Bracketed(chunk)), ',') == chunk
  {
    JoinExcludes(chunk, ',', '\n');
    assert Unbracket(Bracketed(chunk)) == Join(chunk, ',');
    SplitJoin(chunk, ',');
  }

  /** Each bracketed chunk line is a single line, and stripping and splitting it gives the chunk back. */
  lemma BracketedLinesParse(cleaned: seq<string>, size: nat)
    requires size > 0
    requires forall i :: 0 <= i < |cleaned| ==> '\n' !in cleaned[i] && ',' !in cleaned[i]
    ensures var chunks := Chunk(cleaned, size);
      forall k :: 0 <= k < |chunks| ==>
        '\n' !in BracketedLines(chunks)[k] && Split(Unbracket(BracketedLines(chunks)[k]), ',') == chunks[k]
  {
    var chunks := Chunk(cleaned, size);
    forall k | 0 <= k < |chunks|
      ensures '\n' !in Bracketed(chunks[k])
      ensures Split(Unbracket(Bracketed(chunks[k])), ',') == chunks[k]
    {
      ChunkItems(cleaned, size, k);
      BracketedParse(chunks[k]);
    }
  }

  /**
   * For a positive size and addresses free of commas and line breaks, the
   * Etherscan text reads back as exactly the address list.
   */
  lemma EtherscanRoundTrip(cleaned: seq<string>, size: int)
    requires size > 0 && |cleaned| >= 1
    requires forall i :: 0 <= i < |cleaned| ==> '\n' !in cleaned[i] && ',' !in cleaned[i]
    ensures EtherscanText(cleaned, size).Some?
    ensures ParseEtherscan(EtherscanText(cleaned, size).value) == cleaned
  {
    var chunks := Chunk(cleaned, size);
    var lines := BracketedLines(chunks);
    ChunkSizes(cleaned, size);
    BracketedLinesParse(cleaned, size);
    SplitJoin(lines, '\n');
    assert ParseLines(lines) == chunks;
    ChunkFlatten(cleaned, size);
    assert EtherscanText(cleaned, size).value == Join(lines, '\n');
  }
}
