/** `wwid_alias` and `process_aliases` of change_wwid_alias.py (both the
    scripts and the compellent copy): the WWID-to-alias dictionary read from
    the headers of `multipath -ll`, and the `wwid:alias` pairs applied to
    it. The dictionary is a table of entries in insertion order, which is
    the order `update_config` writes them in. */
module WwidAlias {
  import opened Results
  import opened Text

  /** One dictionary item: `wwids[wwid] == alias`. */
  datatype Entry = Entry(wwid: string, alias: string)

  /** The dictionary, in insertion order. */
  type Table = seq<Entry>

  /** The keys in insertion order. */
  function Keys(t: Table): (ks: seq<string>)
    ensures |ks| == |t|
    ensures forall i | 0 <= i < |t| :: ks[i] == t[i].wwid
  {
    seq(|t|, i requires 0 <= i < |t| => t[i].wwid)
  }

  /** A dictionary holds each key once. */
  predicate UniqueKeys(t: Table) {
    forall i, j | 0 <= i < j < |t| :: t[i].wwid != t[j].wwid
  }

  /** Where `wwid` is in the table: its first position, if any. */
  function IndexOf(t: Table, wwid: string): (r: Option<nat>)
    ensures r.None? <==> forall i | 0 <= i < |t| :: t[i].wwid != wwid
    ensures r.Some? ==> r.value < |t| && t[r.value].wwid == wwid
    ensures r.Some? ==> forall j | 0 <= j < r.value :: t[j].wwid != wwid
  {
    if t == [] then None
    else if t[0].wwid == wwid then Some(0)
    else match IndexOf(t[1..], wwid)
      case None => None
      case Some(i) => Some(i + 1)
  }

  /** The first position holding a key is the one `IndexOf` finds. */
  lemma IndexOfFirst(t: Table, wwid: string, i: nat)
    requires i < |t| && t[i].wwid == wwid
    requires forall j | 0 <= j < i :: t[j].wwid != wwid
    ensures IndexOf(t, wwid) == Some(i)
  {
  }

  /** `wwids.get(wwid)`. */
  function Lookup(t: Table, wwid: string): (r: Option<string>)
    ensures r.None? <==> forall i | 0 <= i < |t| :: t[i].wwid != wwid
    ensures r.Some? ==> exists i | 0 <= i < |t| :: t[i] == Entry(wwid, r.value)
  {
    match IndexOf(t, wwid)
    case Some(i) => Some(t[i].alias)
    case None => None
  }

  /** In a dictionary the entry found is the only one with that key. */
  lemma LookupUnique(t: Table, i: nat)
    requires UniqueKeys(t) && i < |t|
    ensures Lookup(t, t[i].wwid) == Some(t[i].alias)
  {
    IndexOfFirst(t, t[i].wwid, i);
  }

  /** `d[k] = v`: an existing key keeps its place and takes the new value;
      a new key goes last. */
  function Put(t: Table, wwid: string, alias: string): (r: Table)
    ensures Keys(r) == if wwid in Keys(t) then Keys(t) else Keys(t) + [wwid]
    ensures Lookup(r, wwid) == Some(alias)
    ensures forall k | k != wwid :: Lookup(r, k) == Lookup(t, k)
    ensures UniqueKeys(t) ==> UniqueKeys(r)
  {
    match IndexOf(t, wwid)
    case Some(i) =>
      var r := t[i := Entry(wwid, alias)];
      assert Keys(t)[i] == wwid;
      PutAt(t, wwid, alias, i);
      r
    case None =>
      var r := t + [Entry(wwid, alias)];
      assert wwid !in Keys(t);
      PutLast(t, wwid, alias);
      r
  }

  lemma PutAt(t: Table, wwid: string, alias: string, i: nat)
    requires IndexOf(t, wwid) == Some(i)
    ensures var r := t[i := Entry(wwid, alias)];
            && Keys(r) == Keys(t) && Lookup(r, wwid) == Some(alias)
            && (forall k | k != wwid :: Lookup(r, k) == Lookup(t, k))
            && (UniqueKeys(t) ==> UniqueKeys(r))
  {
    var r := t[i := Entry(wwid, alias)];
    IndexOfFirst(r, wwid, i);
    forall k | k != wwid
      ensures Lookup(r, k) == Lookup(t, k)
    {
      match IndexOf(t, k)
      case Some(j) => IndexOfFirst(r, k, j);
      case None =>
    }
  }

  lemma PutLast(t: Table, wwid: string, alias: string)
    requires IndexOf(t, wwid).None?
    ensures var r := t + [Entry(wwid, alias)];
            && Keys(r) == Keys(t) + [wwid] && Lookup(r, wwid) == Some(alias)
            && (forall k | k != wwid :: Lookup(r, k) == Lookup(t, k))
            && (UniqueKeys(t) ==> UniqueKeys(r))
  {
    var r := t + [Entry(wwid, alias)];
    IndexOfFirst(r, wwid, |t|);
    forall k | k != wwid
      ensures Lookup(r, k) == Lookup(t, k)
    {
      match IndexOf(t, k)
      case Some(j) => IndexOfFirst(r, k, j);
      case None =>
    }
  }

  // ---------------------------------------------------------------------
  // Header lines of `multipath -ll`:
  //   (?P<alias>\w+)\s+\((?P<wwid>\w+)\)\s+dm-\d+\s+COMPELNT,Compellent Vol
  // ---------------------------------------------------------------------

  /** The vendor and product of the array, as `multipath -ll` prints them. */
  const Vendor: string := "COMPELNT,Compellent Vol"

  /** The pieces of a header line, e.g.
      `testvol2 (36000d31000d5f00000000000000000a6) dm-3 COMPELNT,Compellent Vol`. */
  datatype Header = Header(alias: string, gap: string, wwid: string, gap2: string, dm: string, gap3: string)

  predicate ValidHeader(h: Header) {
    && h.alias != [] && All(h.alias, IsWordChar) && Blank(h.gap)
    && h.wwid != [] && All(h.wwid, IsWordChar) && Blank(h.gap2)
    && Numeral(h.dm) && Blank(h.gap3)
  }

  /** From `dm-` on, followed by `rest`. */
  function RenderDm(h: Header, rest: string): string {
    "dm-" + (h.dm + (h.gap3 + (Vendor + rest)))
  }

  /** The header line written out, followed by `rest`. */
  function RenderHeader(h: Header, rest: string): string {
    h.alias + (h.gap + ("(" + (h.wwid + (")" + (h.gap2 + RenderDm(h, rest))))))
  }

  /** `dm-\d+\s+COMPELNT,Compellent Vol` and what follows. */
  function ParseDm(s: string): (r: Option<(string, string, string)>)
    ensures r.Some? ==> Numeral(r.value.0) && Blank(r.value.1)
    ensures r.Some? ==> "dm-" + (r.value.0 + (r.value.1 + (Vendor + r.value.2))) == s
  {
    var r1 :- Literal(s, "dm-");
    var dm :- Run1(r1, IsDigit);
    var gap3 :- Run1(dm.1, IsSpace);
    var rest :- Literal(gap3.1, Vendor);
    Some((dm.0, gap3.0, rest))
  }

  /** `re_multipath.match(line)`: the header at the start of `line` and
      whatever follows the product name. */
  function ParseHeader(line: string): (r: Option<(Header, string)>)
    ensures r.Some? ==> ValidHeader(r.value.0) && RenderHeader(r.value.0, r.value.1) == line
  {
    var alias :- Run1(line, IsWordChar);
    var gap :- Run1(alias.1, IsSpace);
    var r1 :- Literal(gap.1, "(");
    var wwid :- Run1(r1, IsWordChar);
    var r2 :- Literal(wwid.1, ")");
    var gap2 :- Run1(r2, IsSpace);
    var tail :- ParseDm(gap2.1);
    Some((Header(alias.0, gap.0, wwid.0, gap2.0, tail.0, tail.1), tail.2))
  }

  lemma ParseDmRender(h: Header, rest: string)
    requires ValidHeader(h)
    ensures ParseDm(RenderDm(h, rest)) == Some((h.dm, h.gap3, rest))
  {
    var s3 := Vendor + rest;
    var s2 := h.gap3 + s3;
    LiteralSplits("dm-", h.dm + s2);
    assert s2[0] == h.gap3[0];
    Run1Splits(h.dm, s2, IsDigit);
    assert s3[0] == 'C';
    Run1Splits(h.gap3, s3, IsSpace);
    LiteralSplits(Vendor, rest);
  }

  /** Every header line is recognised, whatever follows it. */
  lemma ParseHeaderRender(h: Header, rest: string)
    requires ValidHeader(h)
    ensures ParseHeader(RenderHeader(h, rest)) == Some((h, rest))
  {
    var s6 := RenderDm(h, rest);
    var s5 := h.gap2 + s6;
    var s4 := ")" + s5;
    var s3 := h.wwid + s4;
    var s2 := "(" + s3;
    var s1 := h.gap + s2;
    assert s1[0] == h.gap[0];
    Run1Splits(h.alias, s1, IsWordChar);
    Run1Splits(h.gap, s2, IsSpace);
    LiteralSplits("(", s3);
    Run1Splits(h.wwid, s4, IsWordChar);
    LiteralSplits(")", s5);
    assert s6[0] == 'd';
    Run1Splits(h.gap2, s6, IsSpace);
    ParseDmRender(h, rest);
  }

  /** The dictionary item a line of `multipath -ll` gives: only a header
      line of the array gives one, a path line does not. */
  function HeaderEntry(line: string): (r: Option<Entry>)
    ensures r.Some? <==> ParseHeader(line).Some?
  {
    match ParseHeader(line)
    case Some((h, _)) => Some(Entry(h.wwid, h.alias))
    case None => None
  }

  /** A header line gives its own WWID and alias. */
  lemma HeaderLineEntry(h: Header, rest: string)
    requires ValidHeader(h)
    ensures HeaderEntry(RenderHeader(h, rest)) == Some(Entry(h.wwid, h.alias))
  {
    ParseHeaderRender(h, rest);
  }

  /** A path line, which starts with blank space, gives nothing. */
  lemma IndentedLineNoEntry(line: string)
    requires line != [] && IsSpace(line[0])
    ensures HeaderEntry(line) == None
  {
  }

  /** The dictionary filled from lines, one line at a time, with the item
      each line gives, if any: `d[item.wwid] = item.alias`. */
  function Recorded(lines: seq<string>, item: string -> Option<Entry>): (t: Table)
    ensures UniqueKeys(t)
    decreases |lines|
  {
    if lines == [] then []
    else
      var t := Recorded(lines[..|lines| - 1], item);
      match item(lines[|lines| - 1])
      case Some(e) => Put(t, e.wwid, e.alias)
      case None => t
  }

  /** The line `i` is the last line giving an item for `wwid`. */
  predicate LastItemFor(lines: seq<string>, item: string -> Option<Entry>, i: int, wwid: string) {
    && 0 <= i < |lines| && item(lines[i]).Some? && item(lines[i]).value.wwid == wwid
    && forall j | i < j < |lines| :: item(lines[j]).None? || item(lines[j]).value.wwid != wwid
  }

  /** No line gives an item for `wwid`. */
  predicate Unnamed(lines: seq<string>, item: string -> Option<Entry>, wwid: string) {
    forall i | 0 <= i < |lines| :: item(lines[i]).None? || item(lines[i]).value.wwid != wwid
  }

  /** A WWID maps to the alias of the last line naming it, and is absent
      when no line names it. */
  lemma RecordedLookup(lines: seq<string>, item: string -> Option<Entry>, wwid: string)
    ensures Lookup(Recorded(lines, item), wwid).None? <==> Unnamed(lines, item, wwid)
    ensures forall i | LastItemFor(lines, item, i, wwid) ::
              Lookup(Recorded(lines, item), wwid) == Some(item(lines[i]).value.alias)
  {
    RecordedAbsent(lines, item, wwid);
    forall i | LastItemFor(lines, item, i, wwid)
      ensures Lookup(Recorded(lines, item), wwid) == Some(item(lines[i]).value.alias)
    {
      RecordedLast(lines, item, i, wwid);
    }
  }

  /** The last line only changes the entry of its own WWID. */
  lemma RecordedStep(lines: seq<string>, item: string -> Option<Entry>, wwid: string)
    requires lines != []
    ensures var last := item(lines[|lines| - 1]);
            var before := Lookup(Recorded(lines[..|lines| - 1], item), wwid);
            Lookup(Recorded(lines, item), wwid) ==
              if last.Some? && last.value.wwid == wwid then Some(last.value.alias) else before
  {
  }

  lemma {:induction false} RecordedAbsent(lines: seq<string>, item: string -> Option<Entry>, wwid: string)
    ensures Lookup(Recorded(lines, item), wwid).None? <==> Unnamed(lines, item, wwid)
    decreases |lines|
  {
    if lines != [] {
      var n := |lines| - 1;
      var init := lines[..n];
      RecordedAbsent(init, item, wwid);
      RecordedStep(lines, item, wwid);
      assert forall i | 0 <= i < n :: init[i] == lines[i];
    }
  }

  lemma {:induction false} RecordedLast(lines: seq<string>, item: string -> Option<Entry>, i: int, wwid: string)
    requires LastItemFor(lines, item, i, wwid)
    ensures Lookup(Recorded(lines, item), wwid) == Some(item(lines[i]).value.alias)
    decreases |lines|
  {
    var n := |lines| - 1;
    var init := lines[..n];
    RecordedStep(lines, item, wwid);
    if i < n {
      assert forall j | 0 <= j < n :: init[j] == lines[j];
      assert LastItemFor(init, item, i, wwid);
      RecordedLast(init, item, i, wwid);
    }
  }

  /** `wwid_alias()` on the output of `multipath -ll`: every WWID of a
      header line maps to the alias of the last header line naming it. */
  function WwidAliases(output: string): (t: Table)
    ensures UniqueKeys(t)
  {
    Recorded(SplitLines(output), HeaderEntry)
  }

  /** The WWIDs are those of the header lines, each with the alias of the
      last header line naming it. */
  lemma WwidAliasesLookup(output: string, wwid: string)
    ensures Lookup(WwidAliases(output), wwid).None? <==> Unnamed(SplitLines(output), HeaderEntry, wwid)
    ensures forall i | LastItemFor(SplitLines(output), HeaderEntry, i, wwid) ::
              Lookup(WwidAliases(output), wwid) == Some(HeaderEntry(SplitLines(output)[i]).value.alias)
  {
    RecordedLookup(SplitLines(output), HeaderEntry, wwid);
  }

  // ---------------------------------------------------------------------
  // `process_aliases`: pairs `wwid:alias` matched by (?P<wwid>\w+):(?P<alias>\w+)
  // ---------------------------------------------------------------------

  /** A pair not of the form `wwid:alias` stops the run. The scripts copy
      exits with a message naming the pair; the compellent copy fails on
      an undefined name while building its message. */
  datatype PairError = Malformed(pair: string)

  /** The pair written out, followed by `rest`. */
  function RenderPair(e: Entry, rest: string): string {
    e.wwid + (":" + (e.alias + rest))
  }

  /** `re_pair.match(pair)`: the WWID and alias at the start of the pair,
      and what follows the alias. */
  function ParsePair(pair: string): (r: Option<(Entry, string)>)
    ensures r.Some? ==> r.value.0.wwid != [] && All(r.value.0.wwid, IsWordChar)
    ensures r.Some? ==> r.value.0.alias != [] && All(r.value.0.alias, IsWordChar)
    ensures r.Some? ==> RenderPair(r.value.0, r.value.1) == pair
    ensures r.Some? ==> r.value.1 == [] || !IsWordChar(r.value.1[0])
  {
    var wwid :- Run1(pair, IsWordChar);
    var r1 :- Literal(wwid.1, ":");
    var alias :- Run1(r1, IsWordChar);
    Some((Entry(wwid.0, alias.0), alias.1))
  }

  lemma ParsePairRender(e: Entry, rest: string)
    requires e.wwid != [] && All(e.wwid, IsWordChar) && e.alias != [] && All(e.alias, IsWordChar)
    requires rest == [] || !IsWordChar(rest[0])
    ensures ParsePair(RenderPair(e, rest)) == Some((e, rest))
  {
    Run1Splits(e.wwid, ":" + (e.alias + rest), IsWordChar);
    LiteralSplits(":", e.alias + rest);
    Run1Splits(e.alias, rest, IsWordChar);
  }

  /** One well-formed pair: a known WWID whose current alias is not
      mounted takes the new alias; otherwise nothing changes. Whether an
      alias is mounted (non-empty `findmnt` output for `/dev/mapper/<alias>`)
      is an input. */
  function ApplyPair(t: Table, e: Entry, mounted: string -> bool): (r: Table)
    ensures Keys(r) == Keys(t)
    ensures UniqueKeys(t) ==> UniqueKeys(r)
    ensures Lookup(t, e.wwid).Some? && !mounted(Lookup(t, e.wwid).value) ==> Lookup(r, e.wwid) == Some(e.alias)
    ensures Lookup(t, e.wwid).None? || mounted(Lookup(t, e.wwid).value) ==> r == t
    ensures forall k | k != e.wwid :: Lookup(r, k) == Lookup(t, k)
  {
    match Lookup(t, e.wwid)
    case None => t
    case Some(current) =>
      if mounted(current) then t
      else
        assert e.wwid in Keys(t) by {
          var i :| 0 <= i < |t| && t[i] == Entry(e.wwid, current);
          assert Keys(t)[i] == e.wwid;
        }
        Put(t, e.wwid, e.alias)
  }

  /** Every pair read as `wwid:alias`, in order; the first malformed
      pair stops the run. */
  function PairEntries(pairs: seq<string>): (r: Result<seq<Entry>, PairError>)
    ensures r.Success? <==> forall i | 0 <= i < |pairs| :: ParsePair(pairs[i]).Some?
    ensures r.Success? ==> |r.value| == |pairs|
    ensures r.Success? ==> forall i | 0 <= i < |pairs| :: r.value[i] == ParsePair(pairs[i]).value.0
    ensures r.Failure? ==> exists i | 0 <= i < |pairs| ::
              && pairs[i] == r.error.pair && ParsePair(pairs[i]).None?
              && forall j | 0 <= j < i :: ParsePair(pairs[j]).Some?
  {
    if pairs == [] then Success([])
    else match ParsePair(pairs[0])
      case None => Failure(Malformed(pairs[0]))
      case Some((e, _)) =>
        match PairEntries(pairs[1..])
        case Failure(err) => MalformedLater(pairs, err.pair); Failure(err)
        case Success(es) => ParsedAll(pairs, e, es); Success([e] + es)
  }

  /** A malformed pair after a well-formed first pair is the first
      malformed pair of the whole run. */
  lemma MalformedLater(pairs: seq<string>, bad: string)
    requires pairs != [] && ParsePair(pairs[0]).Some?
    requires exists i | 0 <= i < |pairs| - 1 ::
               && pairs[1..][i] == bad && ParsePair(pairs[1..][i]).None?
               && forall j | 0 <= j < i :: ParsePair(pairs[1..][j]).Some?
    ensures exists i | 0 <= i < |pairs| ::
              && pairs[i] == bad && ParsePair(pairs[i]).None?
              && forall j | 0 <= j < i :: ParsePair(pairs[j]).Some?
  {
    var i :| 0 <= i < |pairs| - 1 && pairs[1..][i] == bad && ParsePair(pairs[1..][i]).None?
             && forall j | 0 <= j < i :: ParsePair(pairs[1..][j]).Some?;
    assert pairs[i + 1] == pairs[1..][i];
    forall j | 0 <= j < i + 1
      ensures ParsePair(pairs[j]).Some?
    {
      if j > 0 {
        assert pairs[j] == pairs[1..][j - 1];
      }
    }
  }

  /** The first entry followed by the entries of the other pairs are the
      entries of all pairs. */
  lemma ParsedAll(pairs: seq<string>, e: Entry, es: seq<Entry>)
    requires pairs != [] && ParsePair(pairs[0]).Some? && e == ParsePair(pairs[0]).value.0
    requires |es| == |pairs| - 1
    requires forall i | 0 <= i < |es| :: ParsePair(pairs[1..][i]).Some?
    requires forall i | 0 <= i < |es| :: es[i] == ParsePair(pairs[1..][i]).value.0
    ensures forall i | 0 <= i < |pairs| :: ParsePair(pairs[i]).Some? && ([e] + es)[i] == ParsePair(pairs[i]).value.0
  {
    forall i | 0 <= i < |pairs|
      ensures ParsePair(pairs[i]).Some? && ([e] + es)[i] == ParsePair(pairs[i]).value.0
    {
      if i > 0 {
        assert pairs[i] == pairs[1..][i - 1];
        assert ([e] + es)[i] == es[i - 1];
      }
    }
  }

  /** The entries applied in order, each mount check made against the
      alias current at that point. */
  function ApplyPairs(t: Table, es: seq<Entry>, mounted: string -> bool): (r: Table)
    ensures Keys(r) == Keys(t)
    ensures UniqueKeys(t) ==> UniqueKeys(r)
    decreases |es|
  {
    if es == [] then t else ApplyPairs(ApplyPair(t, es[0], mounted), es[1..], mounted)
  }

  /** `process_aliases(wwids, pairs)`: the pairs applied in order once all
      are well formed. A malformed pair ends the program, so the table
      built from the pairs before it is never used. */
  function ProcessAliases(t: Table, pairs: seq<string>, mounted: string -> bool): (r: Result<Table, PairError>)
    ensures r.Success? <==> forall i | 0 <= i < |pairs| :: ParsePair(pairs[i]).Some?
    ensures r.Success? ==> Keys(r.value) == Keys(t)
    ensures r.Success? && UniqueKeys(t) ==> UniqueKeys(r.value)
    ensures r.Failure? ==> exists i | 0 <= i < |pairs| ::
              && pairs[i] == r.error.pair && ParsePair(pairs[i]).None?
              && forall j | 0 <= j < i :: ParsePair(pairs[j]).Some?
  {
    var es :- PairEntries(pairs);
    Success(ApplyPairs(t, es, mounted))
  }

  /** A pair for a WWID the dictionary lacks changes nothing. */
  lemma UnknownWwidIgnored(t: Table, pair: string, mounted: string -> bool)
    requires ParsePair(pair).Some? && Lookup(t, ParsePair(pair).value.0.wwid).None?
    ensures ProcessAliases(t, [pair], mounted) == Success(t)
  {
    var e := ParsePair(pair).value.0;
    assert PairEntries([pair]).value == [e];
    assert ApplyPair(t, e, mounted) == t;
    assert ApplyPairs(t, [e], mounted) == ApplyPairs(t, [], mounted);
  }

  /** An entry whose alias is mounted keeps it through every pair. */
  lemma {:induction false} MountedKept(t: Table, es: seq<Entry>, mounted: string -> bool, wwid: string)
    requires Lookup(t, wwid).Some? && mounted(Lookup(t, wwid).value)
    ensures Lookup(ApplyPairs(t, es, mounted), wwid) == Lookup(t, wwid)
    decreases |es|
  {
    if es != [] {
      MountedKept(ApplyPair(t, es[0], mounted), es[1..], mounted, wwid);
    }
  }

  /** The entry `i` is the last one naming `wwid`. */
  predicate LastEntryFor(es: seq<Entry>, i: int, wwid: string) {
    && 0 <= i < |es| && es[i].wwid == wwid
    && forall j | i < j < |es| :: es[j].wwid != wwid
  }

  /** When neither its alias nor any alias a pair gives it is mounted, a
      known WWID ends with the alias of the last pair naming it, and keeps
      its alias when no pair names it. */
  lemma {:induction false} LastPairWins(t: Table, es: seq<Entry>, mounted: string -> bool, wwid: string)
    requires Lookup(t, wwid).Some? && !mounted(Lookup(t, wwid).value)
    requires forall i | 0 <= i < |es| && es[i].wwid == wwid :: !mounted(es[i].alias)
    ensures forall i | LastEntryFor(es, i, wwid) :: Lookup(ApplyPairs(t, es, mounted), wwid) == Some(es[i].alias)
    ensures (forall i | 0 <= i < |es| :: es[i].wwid != wwid) ==>
              Lookup(ApplyPairs(t, es, mounted), wwid) == Lookup(t, wwid)
    decreases |es|
  {
    if es != [] {
      var t1 := ApplyPair(t, es[0], mounted);
      var tail := es[1..];
      assert forall j | 0 <= j < |tail| :: tail[j] == es[j + 1];
      if es[0].wwid == wwid {
        assert Lookup(t1, wwid) == Some(es[0].alias);
      } else {
        assert Lookup(t1, wwid) == Lookup(t, wwid);
      }
      LastPairWins(t1, tail, mounted, wwid);
      forall i | LastEntryFor(es, i, wwid)
        ensures Lookup(ApplyPairs(t, es, mounted), wwid) == Some(es[i].alias)
      {
        if i > 0 {
          assert LastEntryFor(tail, i - 1, wwid);
        }
      }
      if forall i | 0 <= i < |es| :: es[i].wwid != wwid {
        assert es[0].wwid != wwid;
        assert Lookup(t1, wwid) == Lookup(t, wwid);
        assert forall j | 0 <= j < |tail| :: tail[j].wwid != wwid;
      }
    }
  }
}
