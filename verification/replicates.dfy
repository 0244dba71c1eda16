/** The replicate map of src/taxaResiliency/calcScore.py: each taxon of the
    main tree maps to the paths of the jackknife replicate trees built
    without it. Reading the map from a tab-separated file of file names,
    checking it against the main tree's taxa, the replicate-count histogram
    shown when the counts differ, and the per-taxon sort. */
module Replicates {
  import opened Wrappers
  import opened Text

  /** Taxon to replicate paths, in the order they were listed. */
  type ReplicateMap = map<string, seq<string>>

  // ---------------------------------------------------------------------
  // The file of file names
  // ---------------------------------------------------------------------

  /** `fields[1]` of a line without a tab raises `IndexError`. */
  datatype FofnError = NoPathField(line: nat)

  predicate HasTab(line: string) {
    '\t' in line
  }

  /** `line.split('\t')[0]`. */
  function Taxon(line: string): (r: string)
    ensures '\t' !in r
    ensures |r| <= |line| && line[..|r|] == r
    ensures |r| < |line| ==> line[|r|] == '\t'
  {
    var k := IndexOf(line, 0, '\t');
    IndexOfSkips(line, 0, '\t');
    line[..k]
  }

  /** `line.split('\t')[1]`: the text between the first and second tab. */
  function PathField(line: string): (r: string)
    requires HasTab(line)
    ensures '\t' !in r
    ensures var e := |Taxon(line)| + 1 + |r|;
      e <= |line| && line[..e] == Taxon(line) + "\t" + r && (e < |line| ==> line[e] == '\t')
  {
    var k := IndexOf(line, 0, '\t');
    FirstTabInside(line);
    var e := IndexOf(line, k + 1, '\t');
    IndexOfSkips(line, k + 1, '\t');
    line[k + 1..e]
  }

  /** A line holding a tab has its first tab before the end. */
  lemma FirstTabInside(line: string)
    requires HasTab(line)
    ensures IndexOf(line, 0, '\t') < |line|
  {
    IndexOfSkips(line, 0, '\t');
  }

  /** Appends `path` to the list of `taxon`, starting one if needed. */
  function Add(m: ReplicateMap, taxon: string, path: string): (r: ReplicateMap)
    ensures r.Keys == m.Keys + {taxon}
  {
    m[taxon := (if taxon in m then m[taxon] else []) + [path]]
  }

  /** src/taxaResiliency/calcScore.py:237-244: the lines of the file, with
      their newline removed, read in order. */
  function ReadFofn(lines: seq<string>): (r: Result<ReplicateMap, FofnError>)
    decreases |lines|
  {
    if lines == [] then Ok(map[])
    else
      var m :- ReadFofn(lines[..|lines| - 1]);
      var line := lines[|lines| - 1];
      if HasTab(line) then Ok(Add(m, Taxon(line), PathField(line)))
      else Err(NoPathField(|lines| - 1))
  }

  /** The paths listed for `taxon`, in file order. */
  function PathsOf(lines: seq<string>, taxon: string): seq<string>
    requires forall l | l in lines :: HasTab(l)
    decreases |lines|
  {
    if lines == [] then []
    else
      var line := lines[|lines| - 1];
      PathsOf(lines[..|lines| - 1], taxon) + if Taxon(line) == taxon then [PathField(line)] else []
  }

  /** Reading fails exactly when a line has no tab, and then names the
      first such line. */
  lemma {:induction false} ReadFofnFails(lines: seq<string>)
    ensures ReadFofn(lines).Ok? <==> forall l | l in lines :: HasTab(l)
    ensures ReadFofn(lines).Err? ==>
      var i := ReadFofn(lines).error.line;
      && i < |lines| && !HasTab(lines[i])
      && forall j | 0 <= j < i :: HasTab(lines[j])
    decreases |lines|
  {
    if lines != [] {
      var init := lines[..|lines| - 1];
      ReadFofnFails(init);
      assert forall l | l in init :: l in lines;
      assert lines == init + [lines[|lines| - 1]];
      if ReadFofn(init).Err? {
        var i := ReadFofn(init).error.line;
        assert lines[i] == init[i];
        forall j | 0 <= j < i
          ensures HasTab(lines[j])
        {
          assert lines[j] == init[j];
        }
      }
    }
  }

  /** The taxa named in some lines. */
  function TaxaOf(lines: seq<string>): set<string> {
    set l | l in lines :: Taxon(l)
  }

  lemma TaxaOfSnoc(init: seq<string>, line: string)
    ensures TaxaOf(init + [line]) == TaxaOf(init) + {Taxon(line)}
  {
    var lines := init + [line];
    assert forall l | l in lines :: l in init || l == line;
    assert forall l | l in init :: l in lines;
    assert line in lines;
  }

  /** A successful read groups the paths by taxon: the keys are the taxa
      named in the file, and each taxon keeps its paths in file order;
      fields after the second are ignored. */
  lemma {:induction false} ReadFofnGroups(lines: seq<string>)
    requires forall l | l in lines :: HasTab(l)
    ensures ReadFofn(lines).Ok?
    ensures ReadFofn(lines).value.Keys == TaxaOf(lines)
    ensures forall t | t in ReadFofn(lines).value :: ReadFofn(lines).value[t] == PathsOf(lines, t)
    decreases |lines|
  {
    ReadFofnFails(lines);
    if lines != [] {
      var init := lines[..|lines| - 1];
      var line := lines[|lines| - 1];
      assert lines == init + [line];
      assert forall l | l in init :: l in lines;
      ReadFofnGroups(init);
      TaxaOfSnoc(init, line);
      var m := ReadFofn(init).value;
      var r := ReadFofn(lines).value;
      assert r == Add(m, Taxon(line), PathField(line));
      forall t | t in r
        ensures r[t] == PathsOf(lines, t)
      {
        GroupStep(init, line, m, t);
      }
    }
  }

  /** One more line extends the group of its taxon and no other. */
  lemma GroupStep(init: seq<string>, line: string, m: ReplicateMap, t: string)
    requires forall l | l in init :: HasTab(l)
    requires HasTab(line)
    requires m.Keys == TaxaOf(init)
    requires forall u | u in m :: m[u] == PathsOf(init, u)
    requires t in Add(m, Taxon(line), PathField(line))
    ensures forall l | l in init + [line] :: HasTab(l)
    ensures Add(m, Taxon(line), PathField(line))[t] == PathsOf(init + [line], t)
  {
    var lines := init + [line];
    assert lines[..|lines| - 1] == init;
    if t == Taxon(line) && t !in m {
      PathsOfAbsent(init, t);
    }
  }

  /** A taxon the file never names has no paths. */
  lemma {:induction false} PathsOfAbsent(lines: seq<string>, taxon: string)
    requires forall l | l in lines :: HasTab(l)
    requires taxon !in TaxaOf(lines)
    ensures PathsOf(lines, taxon) == []
    decreases |lines|
  {
    if lines != [] {
      var init := lines[..|lines| - 1];
      assert forall l | l in init :: l in lines;
      assert lines[|lines| - 1] in lines;
      PathsOfAbsent(init, taxon);
    }
  }

  // ---------------------------------------------------------------------
  // The replicate histogram
  // ---------------------------------------------------------------------

  /** How often `c` occurs in `reps`. */
  function Count(reps: seq<nat>, c: nat): nat
    decreases |reps|
  {
    if reps == [] then 0 else Count(reps[1..], c) + if reps[0] == c then 1 else 0
  }

  lemma {:induction false} CountIsMultiplicity(reps: seq<nat>, c: nat)
    ensures Count(reps, c) == multiset(reps)[c]
    decreases |reps|
  {
    if reps != [] {
      CountIsMultiplicity(reps[1..], c);
      assert reps == [reps[0]] + reps[1..];
    }
  }

  /** Python's `max()` of a non-empty list. */
  function MaxOf(reps: seq<nat>): (m: nat)
    requires reps != []
    ensures m in reps && forall k | 0 <= k < |reps| :: reps[k] <= m
    decreases |reps|
  {
    if |reps| == 1 then reps[0]
    else
      var m := MaxOf(reps[1..]);
      if reps[0] < m then m else reps[0]
  }

  /** The histogram's bars for the counts `c..top` that occur, in ascending
      order, each with its frequency (src/taxaResiliency/calcScore.py:263-267,
      278-279). */
  function Bins(reps: seq<nat>, c: nat, top: nat): (bs: seq<(nat, nat)>)
    requires c <= top + 1
    ensures forall k | 0 <= k < |bs| :: c <= bs[k].0 <= top
    decreases top + 1 - c
  {
    if c == top + 1 then []
    else
      var f := Count(reps, c);
      (if f > 0 then [(c, f)] else []) + Bins(reps, c + 1, top)
  }

  /** Each bin holds a count that occurs, with its frequency. */
  lemma {:induction false} BinsFrequencies(reps: seq<nat>, c: nat, top: nat)
    requires c <= top + 1
    ensures forall b | b in Bins(reps, c, top) :: b.1 == Count(reps, b.0) > 0
    decreases top + 1 - c
  {
    if c <= top {
      BinsFrequencies(reps, c + 1, top);
    }
  }

  /** Strictly ascending by count. */
  predicate Ascending(bs: seq<(nat, nat)>) {
    forall a, b | 0 <= a < b < |bs| :: bs[a].0 < bs[b].0
  }

  lemma ConsAscending(h: (nat, nat), rest: seq<(nat, nat)>)
    requires Ascending(rest)
    requires forall k | 0 <= k < |rest| :: h.0 < rest[k].0
    ensures Ascending([h] + rest)
  {
    var bs := [h] + rest;
    forall a, b | 0 <= a < b < |bs|
      ensures bs[a].0 < bs[b].0
    {
      assert bs[b] == rest[b - 1];
      if a > 0 {
        assert bs[a] == rest[a - 1];
      }
    }
  }

  /** The bins are in strictly ascending order of count. */
  lemma {:induction false} BinsAscending(reps: seq<nat>, c: nat, top: nat)
    requires c <= top + 1
    ensures Ascending(Bins(reps, c, top))
    decreases top + 1 - c
  {
    if c <= top {
      var rest := Bins(reps, c + 1, top);
      BinsAscending(reps, c + 1, top);
      if Count(reps, c) > 0 {
        ConsAscending((c, Count(reps, c)), rest);
        assert Bins(reps, c, top) == [(c, Count(reps, c))] + rest;
      } else {
        assert Bins(reps, c, top) == rest;
      }
    }
  }

  /** Every count in `c..top` that occurs has its bin. */
  lemma {:induction false} BinsComplete(reps: seq<nat>, c: nat, top: nat)
    requires c <= top + 1
    ensures forall v | c <= v <= top && Count(reps, v) > 0 :: (v, Count(reps, v)) in Bins(reps, c, top)
    decreases top + 1 - c
  {
    if c <= top {
      var rest := Bins(reps, c + 1, top);
      BinsComplete(reps, c + 1, top);
      assert forall b | b in rest :: b in Bins(reps, c, top);
    }
  }

  /** How many of `reps` lie in `c..top`. */
  function CountIn(reps: seq<nat>, c: nat, top: nat): nat
    decreases |reps|
  {
    if reps == [] then 0 else CountIn(reps[1..], c, top) + if c <= reps[0] <= top then 1 else 0
  }

  function SumFreqs(bs: seq<(nat, nat)>): nat
    decreases |bs|
  {
    if bs == [] then 0 else bs[0].1 + SumFreqs(bs[1..])
  }

  lemma {:induction false} CountInSplit(reps: seq<nat>, c: nat, top: nat)
    requires c <= top
    ensures CountIn(reps, c, top) == Count(reps, c) + CountIn(reps, c + 1, top)
    decreases |reps|
  {
    if reps != [] {
      CountInSplit(reps[1..], c, top);
    }
  }

  lemma {:induction false} CountInAll(reps: seq<nat>, top: nat)
    requires forall k | 0 <= k < |reps| :: reps[k] <= top
    ensures CountIn(reps, 0, top) == |reps|
    decreases |reps|
  {
    if reps != [] {
      CountInAll(reps[1..], top);
    }
  }

  /** The frequencies of the bins of `c..top` add up to the number of
      counts in that range. */
  lemma {:induction false} BinsSum(reps: seq<nat>, c: nat, top: nat)
    requires c <= top + 1
    ensures SumFreqs(Bins(reps, c, top)) == CountIn(reps, c, top)
    decreases top + 1 - c
  {
    if c == top + 1 {
      CountInEmpty(reps, c, top);
    } else {
      BinsSum(reps, c + 1, top);
      CountInSplit(reps, c, top);
      var f := Count(reps, c);
      if f > 0 {
        assert ([(c, f)] + Bins(reps, c + 1, top))[1..] == Bins(reps, c + 1, top);
      } else {
        assert [] + Bins(reps, c + 1, top) == Bins(reps, c + 1, top);
      }
    }
  }

  lemma {:induction false} CountInEmpty(reps: seq<nat>, c: nat, top: nat)
    requires top < c
    ensures CountIn(reps, c, top) == 0
    decreases |reps|
  {
    if reps != [] {
      CountInEmpty(reps[1..], c, top);
    }
  }

  /** The bars of the whole histogram. */
  function HistogramBins(reps: seq<nat>): seq<(nat, nat)>
    requires reps != []
  {
    Bins(reps, 0, MaxOf(reps))
  }

  /** src/taxaResiliency/calcScore.py:263-267: every replicate count is
      tallied once, so the frequencies sum to the number of counts given. */
  lemma HistogramTallies(reps: seq<nat>)
    requires reps != []
    ensures SumFreqs(HistogramBins(reps)) == |reps|
  {
    BinsSum(reps, 0, MaxOf(reps));
    CountInAll(reps, MaxOf(reps));
  }

  /** src/taxaResiliency/calcScore.py:270-274 as written: the format spec
      `' w'` reads its space as the sign flag, not as a fill character, so a
      count is printed as a space and its digits, right-aligned to width w. */
  function CountFieldAsWritten(c: nat, w: nat): (r: string)
    ensures |r| == Max(w, |NatToString(c)| + 1)
    ensures r[|r| - |NatToString(c)|..] == NatToString(c)
  {
    LeftPad(" " + NatToString(c), w)
  }

  /** What the padding character there is evidently meant for: the digits
      right-aligned in a field of width w. */
  function CountField(c: nat, w: nat): (r: string)
    ensures |r| == Max(w, |NatToString(c)|)
    ensures r[|r| - |NatToString(c)|..] == NatToString(c)
  {
    LeftPad(NatToString(c), w)
  }

  /** src/taxaResiliency/calcScore.py:280-281: the count field, `|`, one `=`
      per replicate set of that size, and the frequency in parentheses. */
  function BarLine(field: string, f: nat): string {
    field + "|" + Repeat('=', f) + " (" + NatToString(f) + ")\n"
  }

  function BarLines(bs: seq<(nat, nat)>, w: nat, asWritten: bool): string
    decreases |bs|
  {
    if bs == [] then ""
    else
      var field := if asWritten then CountFieldAsWritten(bs[0].0, w) else CountField(bs[0].0, w);
      BarLine(field, bs[0].1) + BarLines(bs[1..], w, asWritten)
  }

  /** src/taxaResiliency/calcScore.py:261-283 as written. `max()` of an
      empty list raises `ValueError`: `None`. */
  function HistogramAsWritten(reps: seq<nat>): Option<string> {
    if reps == [] then None
    else Some(BarLines(HistogramBins(reps), |NatToString(MaxOf(reps))|, true))
  }

  /** The histogram with its count column aligned. */
  function Histogram(reps: seq<nat>): Option<string> {
    if reps == [] then None
    else Some(BarLines(HistogramBins(reps), |NatToString(MaxOf(reps))|, false))
  }

  /** A smaller number has no more digits. */
  lemma {:induction false} NatToStringLonger(c: nat, m: nat)
    requires c <= m
    ensures |NatToString(c)| <= |NatToString(m)|
    decreases m
  {
    if c >= 10 {
      NatToStringLonger(c / 10, m / 10);
    }
  }

  /** With the evident intent every count field is exactly as wide as the
      largest count, so the bars all start in the same column. */
  lemma HistogramAligned(reps: seq<nat>)
    requires reps != []
    ensures var w := |NatToString(MaxOf(reps))|;
      forall b | b in HistogramBins(reps) :: |CountField(b.0, w)| == w
  {
    var m := MaxOf(reps);
    forall b | b in HistogramBins(reps)
      ensures |CountField(b.0, |NatToString(m)|)| == |NatToString(m)|
    {
      NatToStringLonger(b.0, m);
    }
  }

  /** As written, the widest counts get one more character than the rest:
      for the counts 5 and 10 the bars start in different columns. */
  lemma AsWrittenMisaligned()
    ensures |NatToString(10)| == 2
    ensures CountFieldAsWritten(5, 2) == " 5"
    ensures CountFieldAsWritten(10, 2) == " 10"
    ensures CountField(5, 2) == " 5" && CountField(10, 2) == "10"
  {
    assert DigitChar(5) == '5' && DigitChar(1) == '1' && DigitChar(0) == '0';
    var five := NatToString(5);
    assert five == "5";
    var ten := NatToString(10);
    assert ten == NatToString(1) + [DigitChar(0)] == "10";
    assert Repeat(' ', 1) == " ";
    assert CountField(5, 2) == Repeat(' ', 1) + five;
  }

  /** The histogram depends on the replicate counts only through how often
      each occurs, so the order in which the taxa are visited does not
      matter. */
  lemma HistogramOrderFree(a: seq<nat>, b: seq<nat>)
    requires multiset(a) == multiset(b)
    ensures Histogram(a) == Histogram(b)
    ensures HistogramAsWritten(a) == HistogramAsWritten(b)
  {
    if a != [] {
      assert |b| == |multiset(b)| == |multiset(a)| == |a|;
      var ma := MaxOf(a);
      var mb := MaxOf(b);
      assert ma in multiset(b) && mb in multiset(a);
      assert ma == mb by {
        var i :| 0 <= i < |b| && b[i] == ma;
        var j :| 0 <= j < |a| && a[j] == mb;
      }
      forall c
        ensures Count(a, c) == Count(b, c)
      {
        CountIsMultiplicity(a, c);
        CountIsMultiplicity(b, c);
      }
      BinsSameCounts(a, b, 0, ma);
    }
  }

  lemma {:induction false} BinsSameCounts(a: seq<nat>, b: seq<nat>, c: nat, top: nat)
    requires c <= top + 1
    requires forall v :: Count(a, v) == Count(b, v)
    ensures Bins(a, c, top) == Bins(b, c, top)
    decreases top + 1 - c
  {
    if c <= top {
      BinsSameCounts(a, b, c + 1, top);
    }
  }

  // ---------------------------------------------------------------------
  // Validation
  // ---------------------------------------------------------------------

  /** The three checks of src/taxaResiliency/calcScore.py:285-303; `NoTaxa`
      is the `IndexError` of `reps[0]` when there are no taxa at all. */
  datatype ValidationError =
    | TaxonWithoutReplicates
    | ReplicatesWithoutTaxon
    | NoTaxa
    | UnequalReplicates(histogram: string)

  /** The taxa without repeats, in first-occurrence order. */
  function Dedup(ts: seq<string>): (r: seq<string>)
    ensures forall t :: t in r <==> t in ts
    ensures forall a, b | 0 <= a < b < |r| :: r[a] != r[b]
    decreases |ts|
  {
    if ts == [] then []
    else
      var r := Dedup(ts[..|ts| - 1]);
      if ts[|ts| - 1] in r then r else r + [ts[|ts| - 1]]
  }

  /** The replicate counts of the given taxa. */
  function RepCounts(m: ReplicateMap, ts: seq<string>): (r: seq<nat>)
    requires forall t | t in ts :: t in m
    ensures |r| == |ts| && forall k | 0 <= k < |ts| :: r[k] == |m[ts[k]]|
  {
    seq(|ts|, k requires 0 <= k < |ts| => |m[ts[k]]|)
  }

  /** Every main-tree taxon has replicates. */
  predicate AllListed(m: ReplicateMap, taxa: seq<string>) {
    forall t | t in taxa :: t in m
  }

  /** Every replicate taxon is in the main tree. */
  predicate NoneExtra(m: ReplicateMap, taxa: seq<string>) {
    forall t | t in m :: t in taxa
  }

  predicate AllSame(reps: seq<nat>) {
    forall k | 0 <= k < |reps| :: reps[k] == reps[0]
  }

  /** src/taxaResiliency/calcScore.py:285-303: every main-tree taxon has
      replicates, every replicate taxon is in the main tree, and all taxa
      have the same number of replicates. The counts are collected over the
      set of taxa, whose order Python leaves unspecified; the histogram does
      not depend on it (`HistogramOrderFree`). The message carries the
      histogram as src/taxaResiliency/calcScore.py:261-283 prints it, with
      the misaligned count column. */
  function Validate(m: ReplicateMap, taxa: seq<string>): (r: Result<(), ValidationError>)
    ensures r == Err(TaxonWithoutReplicates) <==> !AllListed(m, taxa)
    ensures r == Err(ReplicatesWithoutTaxon) <==> AllListed(m, taxa) && !NoneExtra(m, taxa)
    ensures r == Err(NoTaxa) <==> taxa == [] && m == map[]
  {
    if !AllListed(m, taxa) then Err(TaxonWithoutReplicates)
    else if !NoneExtra(m, taxa) then Err(ReplicatesWithoutTaxon)
    else
      var reps := RepCounts(m, Dedup(taxa));
      if reps == [] then Err(NoTaxa)
      else if !AllSame(reps) then Err(UnequalReplicates(HistogramAsWritten(reps).value))
      else Ok(())
  }

  /** Over a list naming each taxon of the map, the counts all equal the
      first exactly when any two taxa have equal counts. */
  lemma EqualCounts(m: ReplicateMap, d: seq<string>)
    requires d != [] && forall t :: t in d <==> t in m
    ensures AllSame(RepCounts(m, d)) <==> forall a, b | a in m && b in m :: |m[a]| == |m[b]|
  {
    var reps := RepCounts(m, d);
    if AllSame(reps) {
      forall a, b | a in m && b in m
        ensures |m[a]| == |m[b]|
      {
        var i :| 0 <= i < |d| && d[i] == a;
        var j :| 0 <= j < |d| && d[j] == b;
        assert reps[i] == reps[0] == reps[j];
      }
    }
  }

  /** The map's taxa are the main tree's taxa exactly when neither check on
      the taxa fails. */
  lemma SameTaxa(m: ReplicateMap, taxa: seq<string>)
    ensures m.Keys == (set t | t in taxa) <==> AllListed(m, taxa) && NoneExtra(m, taxa)
  {
  }

  /** With at least one taxon, validation passes exactly when the map's taxa
      are the main tree's taxa and every taxon has as many replicates as any
      other. */
  lemma ValidateAccepts(m: ReplicateMap, taxa: seq<string>)
    requires taxa != []
    ensures Validate(m, taxa).Ok? <==>
      && m.Keys == (set t | t in taxa)
      && forall a, b | a in m && b in m :: |m[a]| == |m[b]|
  {
    SameTaxa(m, taxa);
    if AllListed(m, taxa) && NoneExtra(m, taxa) {
      var d := Dedup(taxa);
      assert taxa[0] in d;
      EqualCounts(m, d);
    }
  }

  // ---------------------------------------------------------------------
  // Sorting each taxon's replicates
  // ---------------------------------------------------------------------

  /** Non-decreasing in `key`. */
  predicate SortedBy(s: seq<string>, key: string -> int) {
    forall a, b | 0 <= a < b < |s| :: key(s[a]) <= key(s[b])
  }

  /** The elements of `s` whose key is `k`, in order. */
  function WithKey(s: seq<string>, key: string -> int, k: int): seq<string>
    decreases |s|
  {
    if s == [] then []
    else WithKey(s[..|s| - 1], key, k) + if key(s[|s| - 1]) == k then [s[|s| - 1]] else []
  }

  /** Puts `x` into the sorted `s` after every element whose key is at
      most `x`'s. */
  function Insert(x: string, s: seq<string>, key: string -> int): (r: seq<string>)
    ensures |r| == |s| + 1
    decreases |s|
  {
    if s == [] || key(s[|s| - 1]) <= key(x) then s + [x]
    else Insert(x, s[..|s| - 1], key) + [s[|s| - 1]]
  }

  /** Python's stable `list.sort(key=key)`, as an insertion sort. */
  function SortByKey(s: seq<string>, key: string -> int): (r: seq<string>)
    ensures |r| == |s|
    decreases |s|
  {
    if s == [] then [] else Insert(s[|s| - 1], SortByKey(s[..|s| - 1], key), key)
  }

  lemma {:induction false} InsertSorted(x: string, s: seq<string>, key: string -> int)
    requires SortedBy(s, key)
    ensures SortedBy(Insert(x, s, key), key)
    ensures Insert(x, s, key) != [] && key(Insert(x, s, key)[|s|]) == Max(key(x), if s == [] then key(x) else key(s[|s| - 1]))
    decreases |s|
  {
    if s != [] && key(s[|s| - 1]) > key(x) {
      var init := s[..|s| - 1];
      assert SortedBy(init, key);
      InsertSorted(x, init, key);
      var r := Insert(x, init, key);
      if init != [] {
        assert key(init[|init| - 1]) <= key(s[|s| - 1]);
      }
      assert r + [s[|s| - 1]] == Insert(x, s, key);
    }
  }

  lemma {:induction false} InsertPermutes(x: string, s: seq<string>, key: string -> int)
    ensures multiset(Insert(x, s, key)) == multiset(s) + multiset{x}
    decreases |s|
  {
    if s != [] && key(s[|s| - 1]) > key(x) {
      var init := s[..|s| - 1];
      InsertPermutes(x, init, key);
      assert s == init + [s[|s| - 1]];
    }
  }

  lemma {:induction false} InsertStable(x: string, s: seq<string>, key: string -> int, k: int)
    requires SortedBy(s, key)
    ensures WithKey(Insert(x, s, key), key, k) == WithKey(s, key, k) + if key(x) == k then [x] else []
    decreases |s|
  {
    if s != [] && key(s[|s| - 1]) > key(x) {
      var init := s[..|s| - 1];
      var y := s[|s| - 1];
      assert SortedBy(init, key);
      InsertStable(x, init, key, k);
      var r := Insert(x, init, key);
      assert Insert(x, s, key)[..|s|] == r;
      assert WithKey(s, key, k) == WithKey(init, key, k) + if key(y) == k then [y] else [];
    }
  }

  /** The sort orders by key. */
  lemma {:induction false} SortByKeySorted(s: seq<string>, key: string -> int)
    ensures SortedBy(SortByKey(s, key), key)
    decreases |s|
  {
    if s != [] {
      SortByKeySorted(s[..|s| - 1], key);
      InsertSorted(s[|s| - 1], SortByKey(s[..|s| - 1], key), key);
    }
  }

  /** The sort keeps the elements. */
  lemma {:induction false} SortByKeyPermutes(s: seq<string>, key: string -> int)
    ensures multiset(SortByKey(s, key)) == multiset(s)
    decreases |s|
  {
    if s != [] {
      var init := s[..|s| - 1];
      var x := s[|s| - 1];
      var t := SortByKey(init, key);
      assert SortByKey(s, key) == Insert(x, t, key);
      SortByKeyPermutes(init, key);
      InsertPermutes(x, t, key);
      assert s == init + [x];
      assert multiset(s) == multiset(init) + multiset{x};
    }
  }

  /** The sort keeps the order of elements with equal keys. */
  lemma {:induction false} SortByKeyStable(s: seq<string>, key: string -> int, k: int)
    ensures WithKey(SortByKey(s, key), key, k) == WithKey(s, key, k)
    decreases |s|
  {
    if s != [] {
      var init := s[..|s| - 1];
      SortByKeyStable(init, key, k);
      SortByKeySorted(init, key);
      InsertStable(s[|s| - 1], SortByKey(init, key), key, k);
    }
  }

  /** src/taxaResiliency/calcScore.py:318-320: each taxon's list sorted in
      place; `key` stands for the integer read from the file name. */
  function SortAll(m: ReplicateMap, key: string -> int): (r: ReplicateMap)
    ensures r.Keys == m.Keys
  {
    map t | t in m :: SortByKey(m[t], key)
  }

  lemma SortAllSpec(m: ReplicateMap, key: string -> int)
    ensures forall t | t in m ::
      && SortedBy(SortAll(m, key)[t], key)
      && multiset(SortAll(m, key)[t]) == multiset(m[t])
      && forall k :: WithKey(SortAll(m, key)[t], key, k) == WithKey(m[t], key, k)
  {
    forall t | t in m
      ensures && SortedBy(SortAll(m, key)[t], key)
              && multiset(SortAll(m, key)[t]) == multiset(m[t])
              && forall k :: WithKey(SortAll(m, key)[t], key, k) == WithKey(m[t], key, k)
    {
      SortByKeySorted(m[t], key);
      SortByKeyPermutes(m[t], key);
      forall k
        ensures WithKey(SortAll(m, key)[t], key, k) == WithKey(m[t], key, k)
      {
        SortByKeyStable(m[t], key, k);
      }
    }
  }

  // The key read from a replicate's file name

  /** src/taxaResiliency/calcScore.py:320 as written, on the file name's
      stem: the greedy leading `.*` of `^.*(\d+).*$` leaves the group only
      the last digit, so the key is that digit; a stem without a digit is
      left unchanged by the substitution and `int()` of it fails: `None`. */
  function LastDigitKey(stem: string): (r: Option<int>)
    ensures r.Some? ==> 0 <= r.value <= 9
    ensures r.None? <==> forall k | 0 <= k < |stem| :: !IsDigit(stem[k])
    ensures r.Some? ==> exists k | 0 <= k < |stem| ::
      && IsDigit(stem[k]) && r.value == stem[k] as int - '0' as int
      && forall k' | k < k' < |stem| :: !IsDigit(stem[k'])
  {
    LastDigitBefore(stem, |stem|)
  }

  function LastDigitBefore(s: string, j: nat): (r: Option<int>)
    requires j <= |s|
    ensures r.Some? ==> 0 <= r.value <= 9
    ensures r.None? <==> forall k | 0 <= k < j :: !IsDigit(s[k])
    ensures r.Some? ==> exists k | 0 <= k < j ::
      && IsDigit(s[k]) && r.value == s[k] as int - '0' as int
      && forall k' | k < k' < j :: !IsDigit(s[k'])
    decreases j
  {
    if j == 0 then None
    else if IsDigit(s[j - 1]) then Some(s[j - 1] as int - '0' as int)
    else LastDigitBefore(s, j - 1)
  }

  /** The index just past the last digit before `j`, or 0. */
  function LastDigitEnd(s: string, j: nat): (e: nat)
    requires j <= |s|
    ensures e <= j && (e > 0 ==> IsDigit(s[e - 1]))
    decreases j
  {
    if j == 0 || IsDigit(s[j - 1]) then j else LastDigitEnd(s, j - 1)
  }

  /** The start of the run of digits ending at `j`. */
  function RunStart(s: string, j: nat): (a: nat)
    requires j <= |s|
    ensures a <= j
    decreases j
  {
    if j > 0 && IsDigit(s[j - 1]) then RunStart(s, j - 1) else j
  }

  /** What the key is evidently meant to be: the whole last number in the
      stem, so that `tree-12` sorts as 12. */
  function NumberKey(stem: string): Option<int> {
    var e := LastDigitEnd(stem, |stem|);
    if e == 0 then None
    else
      match DigitsValue(stem, RunStart(stem, e), e)
      case None => None
      case Some(v) => Some(v)
  }

  /** As written, `tree-10` gets key 0 and sorts before `tree-9`. */
  lemma AsWrittenKeyMisorders()
    ensures LastDigitKey("tree-10") == Some(0)
    ensures LastDigitKey("tree-9") == Some(9)
    ensures NumberKey("tree-10") == Some(10)
  {
    var s := "tree-10";
    assert LastDigitEnd(s, 7) == 7;
    assert RunStart(s, 7) == 5 by {
      assert RunStart(s, 5) == 5;
    }
    assert DigitsValue(s, 5, 6) == Some(1) by {
      assert DigitsValue(s, 5, 5) == Some(0);
    }
  }

  /** The run of digits that fills the end of the stem. */
  lemma {:induction false} RunStartOfDigits(s: string, a: nat, j: nat)
    requires a <= j <= |s|
    requires a == 0 || !IsDigit(s[a - 1])
    requires forall k | a <= k < j :: IsDigit(s[k])
    ensures RunStart(s, j) == a
    decreases j
  {
    if j > a {
      RunStartOfDigits(s, a, j - 1);
    }
  }

  /** The evident intent holds: the key of `tree-N` is N. */
  lemma NumberKeyOfReplicate(n: nat)
    ensures NumberKey("tree-" + NatToString(n)) == Some(n)
  {
    var d := NatToString(n);
    var s := "tree-" + d;
    assert s[|s| - 1] == d[|d| - 1];
    assert LastDigitEnd(s, |s|) == |s|;
    forall k | 5 <= k < |s|
      ensures IsDigit(s[k])
    {
      assert s[k] == d[k - 5];
    }
    RunStartOfDigits(s, 5, |s|);
    DigitsValueShift(s, 5, d, 0, |d|);
    DigitsValueOfNatToString(n);
  }

  /** Every listed path's stem holds a number. */
  predicate Keyed(m: ReplicateMap, stem: string -> string) {
    forall t | t in m :: forall k | 0 <= k < |m[t]| :: NumberKey(stem(m[t][k])).Some?
  }

  /** The sort key of a path: the number in its stem (`stem` stands for
      `Path(x).stem`). */
  function StemKey(stem: string -> string): string -> int {
    (p: string) => match NumberKey(stem(p)) case Some(v) => v case None => 0
  }

  /** src/taxaResiliency/calcScore.py:318-320 with the key read as the whole
      number: a stem without one makes `int()` raise, `None` here; otherwise
      each taxon's paths come out ordered by replicate number, none lost or
      added, paths with the same number in their listed order. */
  function SortReplicates(m: ReplicateMap, stem: string -> string): (r: Option<ReplicateMap>)
    ensures r.Some? <==> Keyed(m, stem)
    ensures r.Some? ==> r.value.Keys == m.Keys
    ensures r.Some? ==> forall t | t in m ::
      && SortedBy(r.value[t], StemKey(stem))
      && multiset(r.value[t]) == multiset(m[t])
  {
    if Keyed(m, stem) then
      SortAllSpec(m, StemKey(stem));
      Some(SortAll(m, StemKey(stem)))
    else None
  }

  /** Replicates named `tree-N` come out in increasing N. */
  lemma SortedReplicateNumbers(s: seq<string>, ns: seq<nat>, stem: string -> string)
    requires |s| == |ns|
    requires forall k | 0 <= k < |s| :: stem(s[k]) == "tree-" + NatToString(ns[k])
    requires SortedBy(s, StemKey(stem))
    ensures forall a, b | 0 <= a < b < |s| :: ns[a] <= ns[b]
  {
    forall k | 0 <= k < |s|
      ensures StemKey(stem)(s[k]) == ns[k]
    {
      NumberKeyOfReplicate(ns[k]);
    }
  }
}
