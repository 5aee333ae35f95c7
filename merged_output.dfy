/**
 * What a collection produces from its assets, in iteration order: the merged
 * text that compile() writes, the text its fingerprint is computed from, and
 * the name of the merged file.
 */
module MergedOutput {
  import opened Wrappers
  import opened AssetRecords
  import PhpStrings
  import WeightSort

  /** The text compile() adds for one asset: its output and a blank line. */
  function Part(a: Asset, process: bool): string {
    a.Compile(process) + "\n\n"
  }

  /** compile(): the outputs of the assets in order, each followed by "\n\n". */
  function Compiled(xs: seq<Asset>, process: bool): (r: string)
    ensures |r| == OutputLengths(xs, process) + 2 * |xs|
  {
    if xs == [] then "" else Part(xs[0], process) + Compiled(xs[1..], process)
  }

  /** The sum of the lengths of the assets' outputs; the merged text adds two characters per asset, so no assets give "". */
  function OutputLengths(xs: seq<Asset>, process: bool): nat {
    if xs == [] then 0 else |xs[0].Compile(process)| + OutputLengths(xs[1..], process)
  }

  lemma {:induction false} CompiledAppend(xs: seq<Asset>, ys: seq<Asset>, process: bool)
    ensures Compiled(xs + ys, process) == Compiled(xs, process) + Compiled(ys, process)
  {
    if xs != [] {
      assert (xs + ys)[0] == xs[0] && (xs + ys)[1..] == xs[1..] + ys;
      CompiledAppend(xs[1..], ys, process);
      calc {
        Compiled(xs + ys, process);
        Part(xs[0], process) + Compiled(xs[1..] + ys, process);
        Part(xs[0], process) + (Compiled(xs[1..], process) + Compiled(ys, process));
      }
    } else {
      assert xs + ys == ys;
    }
  }

  /** One more asset adds its part at the end. */
  lemma CompiledSnoc(xs: seq<Asset>, x: Asset, process: bool)
    ensures Compiled(xs + [x], process) == Compiled(xs, process) + Part(x, process)
  {
    CompiledAppend(xs, [x], process);
    assert Compiled([x], process) == Part(x, process) + Compiled([], process);
  }

  /** The merged text is the concatenation of the parts: asset `i`'s part sits between those of the assets before and after it. */
  lemma CompiledAt(xs: seq<Asset>, i: nat, process: bool)
    requires i < |xs|
    ensures Compiled(xs, process) == Compiled(xs[..i], process) + Part(xs[i], process) + Compiled(xs[i + 1..], process)
  {
    assert xs == xs[..i] + [xs[i]] + xs[i + 1..];
    CompiledAppend(xs[..i] + [xs[i]], xs[i + 1..], process);
    CompiledAppend(xs[..i], [xs[i]], process);
  }

  /**
   * Two assets of weights 2 and 1 whose outputs are "b" and "a": sorted, in
   * whatever way the sort breaks ties, the collection compiles to "a\n\nb\n\n".
   */
  lemma SortThenCompile(a: Asset, b: Asset, r: seq<Asset>, process: bool)
    requires a.weight == 1 && b.weight == 2
    requires a.Compile(process) == "a" && b.Compile(process) == "b"
    requires multiset(r) == multiset([b, a]) && WeightSort.SortedByWeight(r)
    ensures Compiled(r, process) == "a\n\nb\n\n"
  {
    WeightSort.LighterComesFirst(a, b, r);
    assert r[1..] == [b] && r[1..][1..] == [];
    assert Compiled([b], process) == "b\n\n";
  }

  /** The haystack of hash_content(): for each asset its hash source, then its weight as text. */
  function Haystack(xs: seq<Asset>): (r: string)
    ensures |r| >= |xs|
  {
    if xs == [] then "" else xs[0].HashSource() + PhpStrings.IntToString(xs[0].weight) + Haystack(xs[1..])
  }

  lemma {:induction false} HaystackAppend(xs: seq<Asset>, ys: seq<Asset>)
    ensures Haystack(xs + ys) == Haystack(xs) + Haystack(ys)
  {
    if xs != [] {
      assert (xs + ys)[0] == xs[0] && (xs + ys)[1..] == xs[1..] + ys;
      HaystackAppend(xs[1..], ys);
      var head := xs[0].HashSource() + PhpStrings.IntToString(xs[0].weight);
      calc {
        Haystack(xs + ys);
        head + Haystack((xs + ys)[1..]);
        head + Haystack(xs[1..] + ys);
        head + (Haystack(xs[1..]) + Haystack(ys));
        (head + Haystack(xs[1..])) + Haystack(ys);
        Haystack(xs) + Haystack(ys);
      }
    } else {
      assert xs + ys == ys;
    }
  }

  /** One more asset adds its hash source and weight at the end. */
  lemma HaystackSnoc(xs: seq<Asset>, x: Asset)
    ensures Haystack(xs + [x]) == Haystack(xs) + (x.HashSource() + PhpStrings.IntToString(x.weight))
  {
    HaystackAppend(xs, [x]);
    assert Haystack([x]) == x.HashSource() + PhpStrings.IntToString(x.weight) + Haystack([]);
  }

  /** The haystack of one more prefix of `xs` adds asset `i`'s hash source and weight. */
  lemma HaystackPrefix(xs: seq<Asset>, i: nat)
    requires i < |xs|
    ensures Haystack(xs[..i + 1]) == Haystack(xs[..i]) + (xs[i].HashSource() + PhpStrings.IntToString(xs[i].weight))
  {
    assert xs[..i + 1] == xs[..i] + [xs[i]];
    HaystackSnoc(xs[..i], xs[i]);
  }

  /**
   * The fingerprint reads nothing but each asset's hash source and weight, in
   * order: equal sequences of those give equal haystacks, whatever the assets'
   * outputs, timestamps, or (for file-backed assets) contents.
   */
  lemma {:induction false} HaystackDependsOnSourceAndWeight(xs: seq<Asset>, ys: seq<Asset>)
    requires |xs| == |ys|
    requires forall i :: 0 <= i < |xs| ==> xs[i].HashSource() == ys[i].HashSource() && xs[i].weight == ys[i].weight
    ensures Haystack(xs) == Haystack(ys)
  {
    if xs != [] {
      HaystackDependsOnSourceAndWeight(xs[1..], ys[1..]);
    }
  }

  /** One example of order sensitivity: sources a.css and b.css, both of weight 1, give different haystacks in the two orders. */
  lemma HaystackIsOrderSensitive()
    ensures
      var a := Asset(1, Some("a.css"), "", None, "", "");
      var b := Asset(1, Some("b.css"), "", None, "", "");
      Haystack([a, b]) != Haystack([b, a])
  {
    var a := Asset(1, Some("a.css"), "", None, "", "");
    var b := Asset(1, Some("b.css"), "", None, "", "");
    assert PhpStrings.IntToString(1) == "1";
    assert Haystack([a, b])[0] == 'a';
    assert Haystack([b, a])[0] == 'b';
  }

  /** The merged file's name: `name-hash.type`. */
  function FileName(name: string, hash: string, ext: string): (r: string)
    ensures |r| == |name| + |hash| + |ext| + 2
    ensures r[..|name|] == name && r[|name|] == '-' && r[|r| - |ext|..] == ext
    ensures r[|name| + 1..|name| + 1 + |hash|] == hash && r[|name| + 1 + |hash|] == '.'
  {
    name + "-" + hash + "." + ext
  }

  /**
   * For a fixed collection name and type the file name determines the hash, so
   * collections with different fingerprints never share a merged file.
   */
  lemma FileNameDeterminesHash(name: string, ext: string, h1: string, h2: string)
    requires FileName(name, h1, ext) == FileName(name, h2, ext)
    ensures h1 == h2
  {
    var f := FileName(name, h1, ext);
    assert |h1| == |h2|;
    var lo := |name| + 1;
    assert f[lo..lo + |h1|] == h1;
    assert FileName(name, h2, ext)[lo..lo + |h2|] == h2;
  }
}
