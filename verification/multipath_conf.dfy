/** `update_config` of change_wwid_alias.py: the multipath configuration
    file rewritten line by line, the body of its `multipaths` section
    replaced by one `multipath` block per dictionary entry. The file is the
    sequence of its lines as read in place, each with its terminator; the
    result is the sequence of chunks written back. The scripts copy also
    appends a new `multipaths` section when the file has none; the
    compellent copy does not. */
module MultipathConf {
  import opened Text
  import opened WwidAlias

  predicate NotNewline(c: char) { c != '\n' }

  /** `re.match(r'^.*{', line)`: a `{` before the end of the line. */
  predicate Opens(line: string) {
    '{' in TakeWhile(line, NotNewline).0
  }

  /** `re.match(r'^.*}', line)`: a `}` before the end of the line. */
  predicate Closes(line: string) {
    '}' in TakeWhile(line, NotNewline).0
  }

  /** `re.match(r'^\s*multipaths', line)`. */
  predicate IsHeader(line: string) {
    StartsWith(TakeWhile(line, IsSpace).1, "multipaths")
  }

  /** What one line does to the bracket level. */
  function Delta(line: string): (d: int)
    ensures -1 <= d <= 1
  {
    (if Opens(line) then 1 else 0) - (if Closes(line) then 1 else 0)
  }

  /** The bracket level a run of lines leaves behind. */
  function Depth(lines: seq<string>): int {
    if lines == [] then 0 else Delta(lines[0]) + Depth(lines[1..])
  }

  /** The loop's variables: `bracket_level`, `multipaths_block` and
      `multipath_configured`. */
  datatype ConfState = ConfState(depth: int, inBlock: bool, configured: bool)

  const Start := ConfState(0, false, false)

  /** The lines written for one entry, at tab level 1. */
  function EntryLines(e: Entry): (r: seq<string>)
    ensures |r| == 4
  {
    ["\tmultipath {\n", "\t\twwid\t" + e.wwid + "\n", "\t\talias\t" + e.alias + "\n", "\t}\n"]
  }

  /** The blocks for every entry, in dictionary order. */
  function Entries(t: Table): (r: seq<string>)
    ensures |r| == 4 * |t|
    ensures forall i | 0 <= i < |t| :: r[4 * i .. 4 * i + 4] == EntryLines(t[i])
  {
    if t == [] then []
    else
      var rest := Entries(t[1..]);
      var r := EntryLines(t[0]) + rest;
      assert forall i | 1 <= i < |t| :: r[4 * i .. 4 * i + 4] == rest[4 * (i - 1) .. 4 * (i - 1) + 4];
      r
  }

  /** One pass of the loop body: the brackets are counted first, a
      closing bracket back at level 0 ends the section, then the header
      line is written followed by the new entries, a line inside the
      section is dropped, and any other line is written unchanged. */
  function Step(st: ConfState, line: string, t: Table): (r: (seq<string>, ConfState))
    ensures r.1.depth == st.depth + Delta(line)
    ensures r.1.configured == (st.configured || IsHeader(line))
    ensures IsHeader(line) ==> r.1.inBlock && r.0 == [line] + Entries(t)
    ensures !IsHeader(line) && !st.inBlock ==> !r.1.inBlock && r.0 == [line]
    ensures !IsHeader(line) && st.inBlock ==>
              && (r.1.inBlock <==> !(Closes(line) && r.1.depth == 0))
              && r.0 == (if r.1.inBlock then [] else [line])
  {
    var d1 := if Opens(line) then st.depth + 1 else st.depth;
    var d2 := if Closes(line) then d1 - 1 else d1;
    var inBlock := if Closes(line) && st.inBlock && d2 == 0 then false else st.inBlock;
    if IsHeader(line) then ([line] + Entries(t), ConfState(d2, true, true))
    else if inBlock then ([], ConfState(d2, inBlock, st.configured))
    else ([line], ConfState(d2, inBlock, st.configured))
  }

  /** The loop over the lines of the file: what it writes, and the state
      it ends in. */
  function Rewrite(lines: seq<string>, t: Table, st: ConfState): (r: (seq<string>, ConfState))
    ensures r.1.depth == st.depth + Depth(lines)
    ensures r.1.configured <==> st.configured || exists i | 0 <= i < |lines| :: IsHeader(lines[i])
    ensures forall x | x in r.0 :: x in lines || x in Entries(t)
    decreases |lines|
  {
    if lines == [] then ([], st)
    else
      var first := Step(st, lines[0], t);
      var rest := Rewrite(lines[1..], t, first.1);
      assert forall i | 1 <= i < |lines| :: lines[i] == lines[1..][i - 1];
      (first.0 + rest.0, rest.1)
  }

  /** No header line. */
  predicate NoHeader(lines: seq<string>) {
    forall i | 0 <= i < |lines| :: !IsHeader(lines[i])
  }

  /** The section the scripts copy appends to a file without one. */
  function Appended(t: Table): seq<string> {
    ["\nmultipaths {\n"] + Entries(t) + ["}\n"]
  }

  /** `update_config` of the scripts copy: the rewritten lines, followed
      by a new section when no header line was seen and the dictionary
      has entries. */
  function UpdateConfig(lines: seq<string>, t: Table): (r: seq<string>)
    ensures NoHeader(lines) && t != [] ==> r == Rewrite(lines, t, Start).0 + Appended(t)
    ensures !NoHeader(lines) || t == [] ==> r == Rewrite(lines, t, Start).0
  {
    var (out, final) := Rewrite(lines, t, Start);
    if !final.configured && t != [] then out + Appended(t) else out
  }

  /** `update_config` of the compellent copy, which never appends. */
  function UpdateConfigCompellent(lines: seq<string>, t: Table): (r: seq<string>)
    ensures forall x | x in r :: x in lines || x in Entries(t)
  {
    Rewrite(lines, t, Start).0
  }

  /** Outside the section, lines without a header are written unchanged. */
  lemma {:induction false} Verbatim(lines: seq<string>, t: Table, st: ConfState)
    requires !st.inBlock && NoHeader(lines)
    ensures Rewrite(lines, t, st) == (lines, ConfState(st.depth + Depth(lines), false, st.configured))
    decreases |lines|
  {
    if lines != [] {
      assert NoHeader(lines[1..]) by {
        assert forall i | 0 <= i < |lines| - 1 :: lines[1..][i] == lines[i + 1];
      }
      var first := Step(st, lines[0], t);
      Verbatim(lines[1..], t, first.1);
      assert first.0 == [lines[0]];
      assert Rewrite(lines, t, st) == (first.0 + Rewrite(lines[1..], t, first.1).0, Rewrite(lines[1..], t, first.1).1);
      assert [lines[0]] + lines[1..] == lines;
    }
  }

  /** Running the loop over two runs of lines in turn. */
  lemma {:induction false} RewriteConcat(a: seq<string>, b: seq<string>, t: Table, st: ConfState)
    ensures var ra := Rewrite(a, t, st);
            var rb := Rewrite(b, t, ra.1);
            Rewrite(a + b, t, st) == (ra.0 + rb.0, rb.1)
    decreases |a|
  {
    if a == [] {
      JoinNil(b);
      JoinNil(Rewrite(b, t, st).0);
    } else {
      SplitHead(a, b);
      var first := Step(st, a[0], t);
      RewriteConcat(a[1..], b, t, first.1);
      var ra := Rewrite(a[1..], t, first.1);
      var rb := Rewrite(b, t, ra.1);
      assert Rewrite(a, t, st) == (first.0 + ra.0, ra.1);
      assert Rewrite(a + b, t, st) == (first.0 + (ra.0 + rb.0), rb.1);
      Assoc(first.0, ra.0, rb.0);
    }
  }

  /** Inside the section, lines that never bring the level back to 0 are
      dropped. */
  lemma {:induction false} BodyDropped(body: seq<string>, t: Table, st: ConfState)
    requires st.inBlock && st.depth >= 1 && NoHeader(body)
    requires forall k | 1 <= k <= |body| :: st.depth + Depth(body[..k]) >= 1
    ensures Rewrite(body, t, st) == ([], ConfState(st.depth + Depth(body), true, st.configured))
    decreases |body|
  {
    if body != [] {
      var tail := body[1..];
      var s1 := Step(st, body[0], t).1;
      assert body[..1] == [body[0]];
      assert Depth([body[0]]) == Delta(body[0]);
      assert s1.depth >= 1;
      forall k | 1 <= k <= |tail|
        ensures s1.depth + Depth(tail[..k]) >= 1
      {
        assert body[..k + 1] == [body[0]] + tail[..k];
        assert body[..k + 1][1..] == tail[..k];
      }
      assert NoHeader(tail) by {
        assert forall i | 0 <= i < |tail| :: tail[i] == body[i + 1];
      }
      BodyDropped(tail, t, s1);
      assert Step(st, body[0], t).0 == [];
      assert s1 == ConfState(st.depth + Delta(body[0]), true, st.configured);
      assert Depth(body) == Delta(body[0]) + Depth(tail);
      assert Rewrite(tail, t, s1).0 == [];
      assert Rewrite(tail, t, s1).1 == ConfState(st.depth + Depth(body), true, st.configured);
      assert Rewrite(body, t, st).0 == [];
      assert Rewrite(body, t, st).1 == ConfState(st.depth + Depth(body), true, st.configured);
      assert Rewrite(body, t, st) == ([] + Rewrite(tail, t, s1).0, Rewrite(tail, t, s1).1);
    }
  }

  /** The loop over one line is one pass of its body. */
  lemma RewriteOne(line: string, t: Table, st: ConfState)
    ensures Rewrite([line], t, st) == Step(st, line, t)
  {
    var first := Step(st, line, t);
    assert [line][1..] == [];
    assert Rewrite([], t, first.1) == ([], first.1);
    assert Rewrite([line], t, st) == (first.0 + [], first.1);
    assert first.0 + [] == first.0;
  }

  /** The header line, reached outside any bracket, is kept and followed
      by the entries; the loop is then inside the section. */
  lemma HeaderStep(header: string, t: Table, configured: bool)
    requires IsHeader(header) && Opens(header) && !Closes(header)
    ensures Rewrite([header], t, ConfState(0, false, configured)) ==
              ([header] + Entries(t), ConfState(1, true, true))
  {
    RewriteOne(header, t, ConfState(0, false, configured));
  }

  /** Inside the section, the body is dropped and the closing line is
      kept; the loop is then outside again. */
  lemma BodyClosed(body: seq<string>, close: string, t: Table)
    requires NoHeader(body) && Depth(body) == 0
    requires forall k | 1 <= k <= |body| :: Depth(body[..k]) >= 0
    requires !IsHeader(close) && Closes(close) && !Opens(close)
    ensures Rewrite(body + [close], t, ConfState(1, true, true)) == ([close], ConfState(0, false, true))
  {
    var s1 := ConfState(1, true, true);
    var s2 := ConfState(0, false, true);
    RewriteOne(close, t, s1);
    assert Rewrite([close], t, s1) == ([close], s2);
    BodyDropped(body, t, s1);
    RewriteConcat(body, [close], t, s1);
    JoinNil([close]);
  }

  /** The section alone, reached outside any bracket: the header and the
      closing line are kept and the body is replaced by the entries. */
  lemma SectionAlone(header: string, body: seq<string>, close: string, t: Table, configured: bool)
    requires IsHeader(header) && Opens(header) && !Closes(header)
    requires NoHeader(body) && Depth(body) == 0
    requires forall k | 1 <= k <= |body| :: Depth(body[..k]) >= 0
    requires !IsHeader(close) && Closes(close) && !Opens(close)
    ensures Rewrite([header] + body + [close], t, ConfState(0, false, configured)) ==
              ([header] + Entries(t) + [close], ConfState(0, false, true))
  {
    var s0 := ConfState(0, false, configured);
    HeaderStep(header, t, configured);
    BodyClosed(body, close, t);
    RewriteConcat([header], body + [close], t, s0);
    Assoc([header], body, [close]);
  }

  /** A section `header`, `body`, `close` amid lines without headers:
      the header and the closing line are kept, the body is replaced by
      the entries, and everything else is written unchanged. Both copies
      agree, as the header was seen. */
  lemma SectionRewritten(pre: seq<string>, header: string, body: seq<string>, close: string,
                         post: seq<string>, t: Table)
    requires NoHeader(pre) && Depth(pre) == 0
    requires IsHeader(header) && Opens(header) && !Closes(header)
    requires NoHeader(body) && Depth(body) == 0
    requires forall k | 1 <= k <= |body| :: Depth(body[..k]) >= 0
    requires !IsHeader(close) && Closes(close) && !Opens(close)
    requires NoHeader(post)
    ensures var lines := pre + [header] + body + [close] + post;
            var out := pre + [header] + Entries(t) + [close] + post;
            UpdateConfig(lines, t) == out && UpdateConfigCompellent(lines, t) == out
  {
    var section := [header] + body + [close];
    var written := [header] + Entries(t) + [close];
    var s2 := ConfState(0, false, true);
    var fin := ConfState(Depth(post), false, true);
    Verbatim(pre, t, Start);
    assert Rewrite(pre, t, Start) == (pre, Start);
    SectionAlone(header, body, close, t, false);
    assert Rewrite(section, t, Start) == (written, s2);
    Verbatim(post, t, s2);
    assert Rewrite(post, t, s2) == (post, fin);
    RewriteConcat(section, post, t, Start);
    assert Rewrite(section + post, t, Start) == (written + post, fin);
    RewriteConcat(pre, section + post, t, Start);
    var whole := pre + (section + post);
    assert Rewrite(whole, t, Start) == (pre + (written + post), fin);
    Regroup(pre, header, body, close, post);
    Regroup(pre, header, Entries(t), close, post);
  }

  /** A file without a header line: the compellent copy leaves it as it
      is, and the scripts copy appends a section when there are entries. */
  lemma NoSection(lines: seq<string>, t: Table)
    requires NoHeader(lines)
    ensures UpdateConfigCompellent(lines, t) == lines
    ensures UpdateConfig(lines, t) == if t == [] then lines else lines + Appended(t)
  {
    Verbatim(lines, t, Start);
  }
}
