/** `disk_associations` from compellent/delete_devices.py (the copy in
    scripts/delete_devices.py is the same code): the member disks of every
    multipath alias, read from `multipath -ll <alias>`, and the protected
    devices, read from the `findmnt` sources and the `pvs` names. The
    output of each command is an input string here; a command that fails
    contributes the empty string. */
module Topology {
  import opened Results
  import opened Text

  // ---------------------------------------------------------------------
  // Path lines of `multipath -ll <alias>`:
  //   \s+[|`]-\s+\d+:\d+:\d+:\d+\s+(?P<disk>\w+)\s+\d+:\d+
  // Every greedy run in the pattern is followed by a character outside its
  // class, so the pattern matches at most one way and is a chain of runs.
  // ---------------------------------------------------------------------

  /** The `host:channel:target:lun` address of a SCSI path. */
  datatype Hctl = Hctl(host: string, channel: string, target: string, lun: string)

  predicate ValidHctl(a: Hctl) {
    Numeral(a.host) && Numeral(a.channel) && Numeral(a.target) && Numeral(a.lun)
  }

  /** The address written out, followed by `rest`. */
  function RenderHctl(a: Hctl, rest: string): string {
    a.host + (":" + (a.channel + (":" + (a.target + (":" + (a.lun + rest))))))
  }

  function ParseHctl(s: string): (r: Option<(Hctl, string)>)
    ensures r.Some? ==> ValidHctl(r.value.0) && RenderHctl(r.value.0, r.value.1) == s
    ensures r.Some? ==> r.value.1 == [] || !IsDigit(r.value.1[0])
  {
    var host :- Run1(s, IsDigit);
    var r1 :- Literal(host.1, ":");
    var channel :- Run1(r1, IsDigit);
    var r2 :- Literal(channel.1, ":");
    var target :- Run1(r2, IsDigit);
    var r3 :- Literal(target.1, ":");
    var lun :- Run1(r3, IsDigit);
    Some((Hctl(host.0, channel.0, target.0, lun.0), lun.1))
  }

  lemma ParseHctlRender(a: Hctl, rest: string)
    requires ValidHctl(a) && (rest == [] || !IsDigit(rest[0]))
    ensures ParseHctl(RenderHctl(a, rest)) == Some((a, rest))
  {
    var s4 := a.lun + rest;
    var s3 := a.target + (":" + s4);
    var s2 := a.channel + (":" + s3);
    Run1Splits(a.host, ":" + s2, IsDigit);
    LiteralSplits(":", s2);
    Run1Splits(a.channel, ":" + s3, IsDigit);
    LiteralSplits(":", s3);
    Run1Splits(a.target, ":" + s4, IsDigit);
    LiteralSplits(":", s4);
    Run1Splits(a.lun, rest, IsDigit);
  }

  predicate IsTreeMark(c: char) { c == '|' || c == '`' }

  /** The pieces of a path line, e.g. `  |- 34:0:0:1 sdg 8:96`: indent, tree
      mark, gap, SCSI address, gap, device name, gap, `major:minor`. */
  datatype PathLine = PathLine(indent: string, mark: char, gap: string, address: Hctl,
                               gap2: string, disk: string, gap3: string, major: string, minor: string)

  predicate ValidPathLine(p: PathLine) {
    && Blank(p.indent) && IsTreeMark(p.mark) && Blank(p.gap) && ValidHctl(p.address)
    && Blank(p.gap2) && p.disk != [] && All(p.disk, IsWordChar) && Blank(p.gap3)
    && Numeral(p.major) && Numeral(p.minor)
  }

  /** The device name and `major:minor` of a path line, followed by `rest`. */
  function RenderDevice(p: PathLine, rest: string): string {
    p.disk + (p.gap3 + (p.major + (":" + (p.minor + rest))))
  }

  /** The path line written out, followed by `rest`. */
  function RenderPathLine(p: PathLine, rest: string): string {
    p.indent + ([p.mark] + ("-" + (p.gap + RenderHctl(p.address, p.gap2 + RenderDevice(p, rest)))))
  }

  /** The part of the pattern after the address: `\s+(?P<disk>\w+)\s+\d+:\d+`. */
  function ParseDevice(s: string): (r: Option<(string, string, string, string, string, string)>)
    ensures r.Some? ==> var (gap2, disk, gap3, major, minor, rest) := r.value;
              Blank(gap2) && disk != [] && All(disk, IsWordChar) && Blank(gap3) && Numeral(major) && Numeral(minor)
              && (rest == [] || !IsDigit(rest[0]))
              && gap2 + (disk + (gap3 + (major + (":" + (minor + rest))))) == s
  {
    var gap2 :- Run1(s, IsSpace);
    var disk :- Run1(gap2.1, IsWordChar);
    var gap3 :- Run1(disk.1, IsSpace);
    var major :- Run1(gap3.1, IsDigit);
    var r2 :- Literal(major.1, ":");
    var minor :- Run1(r2, IsDigit);
    Some((gap2.0, disk.0, gap3.0, major.0, minor.0, minor.1))
  }

  /** `re_multipath.match(line)`: the pieces of the path line at the start
      of `line`, and the text after the minor number. */
  function ParsePathLine(line: string): (r: Option<(PathLine, string)>)
    ensures r.Some? ==> ValidPathLine(r.value.0) && RenderPathLine(r.value.0, r.value.1) == line
    ensures r.Some? ==> r.value.1 == [] || !IsDigit(r.value.1[0])
  {
    var indent :- Run1(line, IsSpace);
    var mark :- OneChar(indent.1, IsTreeMark);
    var r1 :- Literal(mark.1, "-");
    var gap :- Run1(r1, IsSpace);
    var address :- ParseHctl(gap.1);
    var device :- ParseDevice(address.1);
    var (gap2, disk, gap3, major, minor, rest) := device;
    Some((PathLine(indent.0, mark.0, gap.0, address.0, gap2, disk, gap3, major, minor), rest))
  }

  lemma ParseDeviceRender(p: PathLine, rest: string)
    requires ValidPathLine(p) && (rest == [] || !IsDigit(rest[0]))
    ensures ParseDevice(p.gap2 + RenderDevice(p, rest)) == Some((p.gap2, p.disk, p.gap3, p.major, p.minor, rest))
  {
    var s10 := p.minor + rest;
    var s9 := p.major + (":" + s10);
    var s8 := p.gap3 + s9;
    var s7 := RenderDevice(p, rest);
    assert s7[0] == p.disk[0];
    Run1Splits(p.gap2, s7, IsSpace);
    assert s8[0] == p.gap3[0];
    Run1Splits(p.disk, s8, IsWordChar);
    Run1Splits(p.gap3, s9, IsSpace);
    Run1Splits(p.major, ":" + s10, IsDigit);
    LiteralSplits(":", s10);
    Run1Splits(p.minor, rest, IsDigit);
  }

  /** Every path line is recognised, with its pieces and its tail. */
  lemma ParsePathLineRender(p: PathLine, rest: string)
    requires ValidPathLine(p) && (rest == [] || !IsDigit(rest[0]))
    ensures ParsePathLine(RenderPathLine(p, rest)) == Some((p, rest))
  {
    var s6 := p.gap2 + RenderDevice(p, rest);
    var s5 := RenderHctl(p.address, s6);
    var s4 := p.gap + s5;
    var s3 := "-" + s4;
    var s2 := [p.mark] + s3;
    Run1Splits(p.indent, s2, IsSpace);
    assert OneChar(s2, IsTreeMark) == Some((p.mark, s3));
    LiteralSplits("-", s4);
    assert s5[0] == p.address.host[0];
    Run1Splits(p.gap, s5, IsSpace);
    assert s6[0] == p.gap2[0];
    ParseHctlRender(p.address, s6);
    ParseDeviceRender(p, rest);
  }

  /** The member disk a line of `multipath -ll` names, if it is a path
      line: none, or exactly one. */
  function PathDisk(line: string): set<string> {
    match ParsePathLine(line)
    case Some(m) => {m.0.disk}
    case None => {}
  }

  /** The member disks of an alias: one line of `multipath -ll` output at a
      time, each path line adding the disk it names. */
  function Members(detail: string): set<string> {
    Gather(SplitLines(detail), PathDisk)
  }

  /** A path line and its tail as the pattern splits them: the minor
      number is the whole run of digits. */
  predicate PathLineShape(p: PathLine, rest: string) {
    ValidPathLine(p) && (rest == [] || !IsDigit(rest[0]))
  }

  /** One line names a disk exactly when it has the path-line shape with
      that disk as its device name. */
  lemma PathDiskShape(line: string, d: string)
    ensures d in PathDisk(line) <==>
            exists p, rest :: PathLineShape(p, rest) && RenderPathLine(p, rest) == line && p.disk == d
  {
    if d in PathDisk(line) {
      var m := ParsePathLine(line).value;
      assert PathLineShape(m.0, m.1) && RenderPathLine(m.0, m.1) == line && m.0.disk == d;
    }
    if exists p, rest :: PathLineShape(p, rest) && RenderPathLine(p, rest) == line && p.disk == d {
      var p, rest :| PathLineShape(p, rest) && RenderPathLine(p, rest) == line && p.disk == d;
      ParsePathLineRender(p, rest);
    }
  }

  /** A disk is a member exactly when some line of that alias's own output
      names it. */
  lemma MembersFromPathLines(detail: string, d: string)
    ensures var lines := SplitLines(detail);
            d in Members(detail) <==> exists i | 0 <= i < |lines| :: d in PathDisk(lines[i])
  {
    var lines, f := SplitLines(detail), PathDisk;
    GatherLines(lines, f, d);
    assert forall i | 0 <= i < |lines| :: f(lines[i]) == PathDisk(lines[i]);
  }

  /** A path line is indented: a line starting with anything but blank
      space names no disk. */
  lemma UnindentedNotPathLine(line: string)
    requires line == [] || !IsSpace(line[0])
    ensures PathDisk(line) == {}
  {
  }

  /** The header, `size=` and policy lines of the sample topology add
      nothing. */
  lemma SampleOtherLines(header: string, size: string, policy: string)
    requires header == "testvol2" + " (36000d31000d5f00000000000000000a6) dm-3 COMPELNT,Compellent Vol"
    requires size == "size=20G" + " features='1 queue_if_no_path' hwhandler='0' wp=rw"
    requires policy == "`-+-" + " policy='round-robin 0' prio=0 status=active"
    ensures PathDisk(header) == {} && PathDisk(size) == {} && PathDisk(policy) == {}
  {
    assert header[0] == 't' && size[0] == 's' && policy[0] == '`';
    UnindentedNotPathLine(header);
    UnindentedNotPathLine(size);
    UnindentedNotPathLine(policy);
  }

  /** A path line of the sample topology adds its disk, whatever follows
      the minor number. */
  lemma SamplePathLine(tail: string)
    requires tail == [] || !IsDigit(tail[0])
    ensures PathDisk("  |- 34:0:0:1 sdg 8:96" + tail) == {"sdg"}
  {
    var p := SamplePath();
    ParsePathLineRender(p, tail);
    SampleRender(tail);
  }

  /** The pieces of the first path line of the sample topology. */
  function SamplePath(): (p: PathLine)
    ensures ValidPathLine(p) && p.disk == "sdg"
  {
    PathLine("  ", '|', " ", Hctl("34", "0", "0", "1"), " ", "sdg", " ", "8", "96")
  }

  /** The pieces put back together give the sample line. */
  lemma SampleRender(tail: string)
    ensures RenderPathLine(SamplePath(), tail) == "  |- 34:0:0:1 sdg 8:96" + tail
  {
    var p := SamplePath();
    RenderPathLineAppends(p, [], tail);
    JoinNil(tail);
    SampleWritten();
  }

  lemma SampleWritten()
    ensures RenderPathLine(SamplePath(), []) == "  |- 34:0:0:1 sdg 8:96"
  {
    var p := SamplePath();
    assert RenderDevice(p, []) == "sdg" + (" " + ("8" + (":" + "96")));
    SampleDeviceJoined();
    assert RenderHctl(p.address, p.gap2 + RenderDevice(p, [])) ==
           "34" + (":" + ("0" + (":" + ("0" + (":" + ("1" + " sdg 8:96"))))));
    SampleAddressJoined();
    SampleLineJoined();
  }

  lemma SampleDeviceJoined()
    ensures "sdg" + (" " + ("8" + (":" + "96"))) == "sdg 8:96"
  {
  }

  lemma SampleAddressJoined()
    ensures "34" + (":" + ("0" + (":" + ("0" + (":" + ("1" + " sdg 8:96")))))) == "34:0:0:1 sdg 8:96"
  {
  }

  lemma SampleLineJoined()
    ensures "  " + (['|'] + ("-" + (" " + "34:0:0:1 sdg 8:96"))) == "  |- 34:0:0:1 sdg 8:96"
  {
  }

  /** What follows a path line is appended to it as it is. */
  lemma RenderPathLineAppends(p: PathLine, rest: string, tail: string)
    ensures RenderPathLine(p, rest + tail) == RenderPathLine(p, rest) + tail
  {
    Assoc(p.minor, rest, tail);
    Assoc(":", p.minor + rest, tail);
    Assoc(p.major, ":" + (p.minor + rest), tail);
    Assoc(p.gap3, p.major + (":" + (p.minor + rest)), tail);
    Assoc(p.disk, p.gap3 + (p.major + (":" + (p.minor + rest))), tail);
    assert RenderDevice(p, rest + tail) == RenderDevice(p, rest) + tail;
    var dev := RenderDevice(p, rest);
    Assoc(p.gap2, dev, tail);
    RenderHctlAppends(p.address, p.gap2 + dev, tail);
    var h := RenderHctl(p.address, p.gap2 + dev);
    Assoc(p.gap, h, tail);
    Assoc("-", p.gap + h, tail);
    Assoc([p.mark], "-" + (p.gap + h), tail);
    Assoc(p.indent, [p.mark] + ("-" + (p.gap + h)), tail);
  }

  /** What follows an address is appended to it as it is. */
  lemma RenderHctlAppends(a: Hctl, rest: string, tail: string)
    ensures RenderHctl(a, rest + tail) == RenderHctl(a, rest) + tail
  {
    Assoc(a.lun, rest, tail);
    Assoc(":", a.lun + rest, tail);
    Assoc(a.target, ":" + (a.lun + rest), tail);
    Assoc(":", a.target + (":" + (a.lun + rest)), tail);
    Assoc(a.channel, ":" + (a.target + (":" + (a.lun + rest))), tail);
    Assoc(":", a.channel + (":" + (a.target + (":" + (a.lun + rest)))), tail);
    Assoc(a.host, ":" + (a.channel + (":" + (a.target + (":" + (a.lun + rest))))), tail);
  }

  // ---------------------------------------------------------------------
  // Aliases: `multipath -l -v 1` lists one alias per line; each stripped
  // line gets an entry, filled from that alias's own topology.
  // ---------------------------------------------------------------------

  /** Reads the topology of one alias from the per-alias output. */
  function MembersFrom(detail: string -> string): string -> set<string> {
    alias => Members(detail(alias))
  }

  /** The alias-to-members dictionary: every stripped listing line is a
      key, possibly with no members, whose members come only from that
      alias's own `multipath -ll` output. */
  function AliasGroups(aliasLines: seq<string>, detail: string -> string): (groups: map<string, set<string>>)
    ensures forall a :: a in groups <==> a in StripAll(aliasLines)
    ensures forall a | a in groups :: groups[a] == Members(detail(a))
  {
    BuildMap(StripAll(aliasLines), MembersFrom(detail))
  }

  // ---------------------------------------------------------------------
  // Mounted sources, stripped, against
  //   (/dev/(?!mapper)(?P<disk>[a-zA-Z]+)\d*)|(/dev/mapper/(?P<alias>\w+))
  // ---------------------------------------------------------------------

  /** What a mount source names: a plain device (letters only, e.g. `sda`
      of `/dev/sda2`) or a device-mapper alias. */
  datatype MountSource = Device(name: string) | Mapper(alias: string)

  const MapperDir: string := "mapper"

  predicate ValidMountSource(m: MountSource) {
    match m
    case Device(name) => name != [] && All(name, IsLetter) && !StartsWith(name, MapperDir)
    case Mapper(alias) => alias != [] && All(alias, IsWordChar)
  }

  /** The class the character after the recognised name must fall outside
      of, so that the name is the whole greedy run. */
  predicate EndsName(m: MountSource, rest: string) {
    match m
    case Device(_) => rest == [] || !IsLetter(rest[0])
    case Mapper(_) => rest == [] || !IsWordChar(rest[0])
  }

  /** The source path naming `m`, followed by `rest`. */
  function RenderMountSource(m: MountSource, rest: string): string {
    match m
    case Device(name) => "/dev/" + (name + rest)
    case Mapper(alias) => "/dev/" + ("mapper/" + (alias + rest))
  }

  lemma StartsWithExtends(s: string, tail: string, prefix: string)
    requires StartsWith(s, prefix)
    ensures StartsWith(s + tail, prefix)
  {
    assert (s + tail)[..|prefix|] == s[..|prefix|];
  }

  /** A maximal run of letters starts with `mapper` exactly when the text
      it begins does. */
  lemma LetterRunLookahead(name: string, rest: string)
    requires All(name, IsLetter) && (rest == [] || !IsLetter(rest[0]))
    ensures StartsWith(name + rest, MapperDir) <==> StartsWith(name, MapperDir)
  {
    var s := name + rest;
    if StartsWith(name, MapperDir) {
      StartsWithExtends(name, rest, MapperDir);
    } else if |name| >= |MapperDir| {
      assert s[..|MapperDir|] == name[..|MapperDir|];
    } else if |s| >= |MapperDir| {
      assert s[|name|] == rest[0];
      assert IsLetter(MapperDir[|name|]);
      assert s[..|MapperDir|][|name|] != MapperDir[|name|];
    }
  }

  /** `re_mounted.match(source)`. The first alternative fails at once on a
      source continuing `/dev/mapper`, and only then is the second tried. */
  function ParseMountSource(source: string): (r: Option<(MountSource, string)>)
    ensures r.Some? ==> ValidMountSource(r.value.0) && EndsName(r.value.0, r.value.1)
    ensures r.Some? ==> RenderMountSource(r.value.0, r.value.1) == source
  {
    var afterDev :- Literal(source, "/dev/");
    if !StartsWith(afterDev, MapperDir) then
      var name :- Run1(afterDev, IsLetter);
      LetterRunLookahead(name.0, name.1);
      Some((Device(name.0), name.1))
    else
      var afterMapper :- Literal(afterDev, "mapper/");
      var alias :- Run1(afterMapper, IsWordChar);
      Some((Mapper(alias.0), alias.1))
  }

  lemma ParseMountSourceRender(m: MountSource, rest: string)
    requires ValidMountSource(m) && EndsName(m, rest)
    ensures ParseMountSource(RenderMountSource(m, rest)) == Some((m, rest))
  {
    match m
    case Device(name) =>
      LiteralSplits("/dev/", name + rest);
      LetterRunLookahead(name, rest);
      Run1Splits(name, rest, IsLetter);
    case Mapper(alias) =>
      LiteralSplits("/dev/", "mapper/" + (alias + rest));
      LiteralSplits("mapper/", alias + rest);
      assert StartsWith("mapper/", MapperDir);
      StartsWithExtends("mapper/", alias + rest, MapperDir);
      Run1Splits(alias, rest, IsWordChar);
  }

  /** What one line of `findmnt` output adds to the protected set. The
      alias dictionary consulted here has no `protected` key: in the source
      that key holds the protected set itself at this point, so a mount of
      `/dev/mapper/protected` unions the set with itself and adds nothing
      beyond the alias name, exactly as a missing key does. */
  function MountProtects(line: string, groups: map<string, set<string>>): set<string> {
    match ParseMountSource(Strip(line))
    case Some((Device(name), _)) => {name}
    case Some((Mapper(alias), _)) => {alias} + (if alias in groups then groups[alias] else {})
    case None => {}
  }

  /** `MountProtects` with the dictionary fixed, one function per run. */
  function MountProtector(groups: map<string, set<string>>): string -> set<string> {
    line => MountProtects(line, groups)
  }

  /** A partition mounted directly protects its whole disk and not the
      partition name: `/dev/sda2` protects `sda`. */
  lemma PartitionMountProtectsDisk(pre: string, name: string, number: string, post: string,
                                   groups: map<string, set<string>>)
    requires All(pre, IsSpace) && All(post, IsSpace) && All(number, IsDigit)
    requires name != [] && All(name, IsLetter) && !StartsWith(name, MapperDir)
    ensures MountProtects(pre + "/dev/" + name + number + post, groups) == {name}
  {
    var core := RenderMountSource(Device(name), number);
    assert core[|core| - 1] == (if number == [] then name[|name| - 1] else number[|number| - 1]);
    assert pre + "/dev/" + name + number + post == pre + core + post;
    StripPadded(pre, core, post);
    ParseMountSourceRender(Device(name), number);
  }

  /** A mounted multipath alias protects itself and every member disk the
      dictionary knows for it. */
  lemma MapperMountProtectsMembers(alias: string, groups: map<string, set<string>>)
    requires alias != [] && All(alias, IsWordChar)
    ensures MountProtects("/dev/mapper/" + alias, groups)
            == {alias} + (if alias in groups then groups[alias] else {})
  {
    var core := RenderMountSource(Mapper(alias), "");
    assert core == "/dev/mapper/" + alias;
    assert core[|core| - 1] == alias[|alias| - 1];
    assert "" + core + "" == core;
    StripPadded("", core, "");
    ParseMountSourceRender(Mapper(alias), "");
  }

  // ---------------------------------------------------------------------
  // LVM physical volumes: stripped `pvs` lines against
  //   /dev/(?P<disk>[a-zA-Z]+)\d*
  // ---------------------------------------------------------------------

  /** `re_lvm.match(line)`: the letters after `/dev/` and what follows. */
  function ParsePvName(s: string): (r: Option<(string, string)>)
    ensures r.Some? ==> r.value.0 != [] && All(r.value.0, IsLetter) && "/dev/" + (r.value.0 + r.value.1) == s
    ensures r.Some? ==> r.value.1 == [] || !IsLetter(r.value.1[0])
  {
    var afterDev :- Literal(s, "/dev/");
    Run1(afterDev, IsLetter)
  }

  lemma ParsePvNameRender(name: string, rest: string)
    requires name != [] && All(name, IsLetter) && (rest == [] || !IsLetter(rest[0]))
    ensures ParsePvName("/dev/" + (name + rest)) == Some((name, rest))
  {
    LiteralSplits("/dev/", name + rest);
    Run1Splits(name, rest, IsLetter);
  }

  /** The disk one `pvs` line protects: none, or exactly one. */
  function PvDisk(line: string): set<string> {
    match ParsePvName(Strip(line))
    case Some((name, _)) => {name}
    case None => {}
  }

  /** An indented physical volume on a partition protects its disk:
      `  /dev/sdb1` protects `sdb`. */
  lemma PartitionPvProtectsDisk(pre: string, name: string, number: string, post: string)
    requires All(pre, IsSpace) && All(post, IsSpace) && All(number, IsDigit)
    requires name != [] && All(name, IsLetter)
    ensures PvDisk(pre + "/dev/" + name + number + post) == {name}
  {
    var core := "/dev/" + (name + number);
    assert core[|core| - 1] == (if number == [] then name[|name| - 1] else number[|number| - 1]);
    assert pre + "/dev/" + name + number + post == pre + core + post;
    StripPadded(pre, core, post);
    ParsePvNameRender(name, number);
  }

  /** A physical volume on a multipath device is listed by its mapper
      path, and the pattern takes the directory name for a disk: the line
      protects a device called `mapper`, and neither the alias nor its
      member disks. */
  lemma MapperPvProtectsMapper(alias: string)
    requires alias != [] && All(alias, IsWordChar)
    ensures PvDisk("/dev/mapper/" + alias) == {MapperDir}
    ensures alias != MapperDir ==> alias !in PvDisk("/dev/mapper/" + alias)
  {
    MapperLineStripped(alias);
    MapperLineParsed(alias);
  }

  lemma MapperLineStripped(alias: string)
    requires alias != [] && All(alias, IsWordChar)
    ensures Strip("/dev/mapper/" + alias) == "/dev/mapper/" + alias
  {
    var line := "/dev/mapper/" + alias;
    assert line[0] == '/' && line[|line| - 1] == alias[|alias| - 1];
    JoinEmpty("", line);
    StripPadded("", line, "");
  }

  lemma MapperLineParsed(alias: string)
    requires alias != []
    ensures ParsePvName("/dev/mapper/" + alias) == Some((MapperDir, "/" + alias))
  {
    assert "/dev/mapper/" == "/dev/" + MapperDir + "/";
    NestRight("/dev/", MapperDir, "/", alias);
    ParsePvNameRender(MapperDir, "/" + alias);
  }

  // ---------------------------------------------------------------------
  // The whole collection.
  // ---------------------------------------------------------------------

  /** The dictionary key under which the source keeps the protected set. */
  const ProtectedKey: string := "protected"

  /** The alias dictionary after the `protected` entry is popped, and the
      protected set kept apart from it. */
  datatype Topology = Topology(groups: map<string, set<string>>, protected: set<string>)

  /** One device against the `findmnt` and `pvs` lines. */
  lemma {:induction false} ProtectedLine(groups: map<string, set<string>>, ms: seq<string>, ps: seq<string>, x: string)
    ensures x in Gather(ms, MountProtector(groups)) + Gather(ps, PvDisk) <==>
              || (exists i | 0 <= i < |ms| :: x in MountProtects(ms[i], groups))
              || (exists i | 0 <= i < |ps| :: x in PvDisk(ps[i]))
  {
    var f, g := MountProtector(groups), PvDisk;
    GatherLines(ms, f, x);
    GatherLines(ps, g, x);
    assert forall i | 0 <= i < |ms| :: f(ms[i]) == MountProtects(ms[i], groups);
    assert forall i | 0 <= i < |ps| :: g(ps[i]) == PvDisk(ps[i]);
  }

  /** The protected set: a device is protected exactly when a `findmnt`
      line names it or names a mapper alias it is a member of, or a `pvs`
      line names it. */
  function ProtectedDevices(groups: map<string, set<string>>, ms: seq<string>, ps: seq<string>): (p: set<string>)
    ensures forall x :: x in p <==>
              || (exists i | 0 <= i < |ms| :: x in MountProtects(ms[i], groups))
              || (exists i | 0 <= i < |ps| :: x in PvDisk(ps[i]))
  {
    var p := Gather(ms, MountProtector(groups)) + Gather(ps, PvDisk);
    assert forall x :: x in p <==>
              || (exists i | 0 <= i < |ms| :: x in MountProtects(ms[i], groups))
              || (exists i | 0 <= i < |ps| :: x in PvDisk(ps[i])) by {
      forall x ensures x in p <==>
              || (exists i | 0 <= i < |ms| :: x in MountProtects(ms[i], groups))
              || (exists i | 0 <= i < |ps| :: x in PvDisk(ps[i])) {
        ProtectedLine(groups, ms, ps, x);
      }
    }
    p
  }

  /** `disk_associations()` followed by `pop('protected')`, given the
      output of `multipath -l -v 1`, of `multipath -ll <alias>` for each
      alias, of `findmnt` and of `pvs`. An alias literally named
      `protected` has its entry overwritten by the protected set and then
      popped, so it never reaches the resolver; the mapper mounts look up
      members in the dictionary without it. */
  function DiskAssociations(aliasListing: string, detail: string -> string, mounts: string, pvs: string): (t: Topology)
    ensures ProtectedKey !in t.groups
    ensures forall a :: a in t.groups <==> a != ProtectedKey && a in StripAll(SplitLines(aliasListing))
    ensures forall a | a in t.groups :: t.groups[a] == Members(detail(a))
    ensures t.protected == ProtectedDevices(t.groups, SplitLines(mounts), SplitLines(pvs))
  {
    var groups := AliasGroups(SplitLines(aliasListing), detail) - {ProtectedKey};
    Topology(groups, ProtectedDevices(groups, SplitLines(mounts), SplitLines(pvs)))
  }

  /** The protected set with the `pvs` lines read as the mount sources
      are: a partition protects its disk, and a mapper path protects the
      alias and its member disks. */
  function ProtectedDevicesCorrected(groups: map<string, set<string>>, ms: seq<string>, ps: seq<string>): (p: set<string>)
    ensures forall x :: x in p <==>
              || (exists i | 0 <= i < |ms| :: x in MountProtects(ms[i], groups))
              || (exists i | 0 <= i < |ps| :: x in MountProtects(ps[i], groups))
  {
    var f := MountProtector(groups);
    var p := Gather(ms, f) + Gather(ps, f);
    assert forall i | 0 <= i < |ms| :: f(ms[i]) == MountProtects(ms[i], groups);
    assert forall i | 0 <= i < |ps| :: f(ps[i]) == MountProtects(ps[i], groups);
    forall x
      ensures x in p <==>
              || (exists i | 0 <= i < |ms| :: x in MountProtects(ms[i], groups))
              || (exists i | 0 <= i < |ps| :: x in MountProtects(ps[i], groups))
    {
      GatherLines(ms, f, x);
      GatherLines(ps, f, x);
    }
    p
  }

  /** `disk_associations()` with the corrected reading of the `pvs` lines. */
  function DiskAssociationsCorrected(aliasListing: string, detail: string -> string, mounts: string, pvs: string): (t: Topology)
    ensures ProtectedKey !in t.groups
    ensures forall a :: a in t.groups <==> a != ProtectedKey && a in StripAll(SplitLines(aliasListing))
    ensures forall a | a in t.groups :: t.groups[a] == Members(detail(a))
    ensures t.protected == ProtectedDevicesCorrected(t.groups, SplitLines(mounts), SplitLines(pvs))
  {
    var groups := AliasGroups(SplitLines(aliasListing), detail) - {ProtectedKey};
    Topology(groups, ProtectedDevicesCorrected(groups, SplitLines(mounts), SplitLines(pvs)))
  }

  /** As written, a physical volume on a multipath alias leaves the alias
      and its members unprotected, unless something else protects them. */
  lemma MapperPvUnprotected(groups: map<string, set<string>>, alias: string)
    requires alias != [] && All(alias, IsWordChar) && alias != MapperDir
    ensures var p := ProtectedDevices(groups, [], ["/dev/mapper/" + alias]);
            alias !in p && (alias in groups ==> p * groups[alias] <= {MapperDir})
  {
    var ps := ["/dev/mapper/" + alias];
    var p := ProtectedDevices(groups, [], ps);
    MapperPvProtectsMapper(alias);
    forall x | x in p
      ensures x == MapperDir
    {
      var i :| 0 <= i < |ps| && x in PvDisk(ps[i]);
      assert i == 0;
    }
  }

  /** Corrected, a physical volume on a multipath alias protects the alias
      and every member disk the dictionary knows for it. */
  lemma CorrectedPvProtectsMembers(groups: map<string, set<string>>, ms: seq<string>, ps: seq<string>,
                                   i: nat, alias: string)
    requires i < |ps| && ps[i] == "/dev/mapper/" + alias
    requires alias != [] && All(alias, IsWordChar)
    ensures alias in ProtectedDevicesCorrected(groups, ms, ps)
    ensures alias in groups ==> groups[alias] <= ProtectedDevicesCorrected(groups, ms, ps)
  {
    MapperMountProtectsMembers(alias, groups);
  }
}
