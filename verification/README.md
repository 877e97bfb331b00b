# Compellent multipath device tools, modelled in Dafny

This project models the decision logic of the Compellent storage helper
scripts: which block devices and multipath aliases a deletion run would
flush and delete, and how the alias-renaming tool reads the WWID-to-alias
dictionary, applies `wwid:alias` pairs and rewrites the `multipaths`
section of the multipath configuration. It also models the time-string
conversion of the helper utilities.

Every command the scripts run (`multipath -l -v 1`, `multipath -ll`,
`findmnt`, `pvs`, the listing of `/sys/block`) is an input string or
sequence. The mount check of the renaming tool is an input predicate. The
configuration file is the sequence of its lines, each with its line
terminator. The model never acts: it computes the plan or the text the
scripts would act on.

Modules, one per file:

- `Results` (results.dfy): `Option` and `Result`. The error paths of the
  scripts (`sys.exit`, raised exceptions) become `Failure` values.
- `Text` (text.dfy): the Python string primitives used, in ASCII terms:
  - `strip`, `splitlines` and `split`;
  - `int()` in base 10;
  - the greedy runs behind `\s+`, `\d+`, `\w+` and `[a-zA-Z]+`.
- `Minutes` (minutes.dfy): `minutes_conversion`.
- `Topology` (topology.dfy): `disk_associations`. It covers the alias
  members read from the path lines, and the protected set read from
  `findmnt` sources and `pvs` names. It also holds the corrected reading of
  the `pvs` lines.
- `Resolver` (resolver.dfy): the three set steps of `delete_devices`:
  1. sibling expansion;
  2. protection filtering;
  3. materialisation of aliases into their member disks.

  It also holds the guarded variant that never plans a protected disk.
- `Request` (request.dfy): the argument validation of `main` in the
  scripts copy.
- `Planner` (planner.dfy): validation, collection and resolution put
  together, once as written and once with the corrected definitions.
- `WwidAlias` (wwid_alias.dfy): `wwid_alias` and `process_aliases`. The
  dictionary is a sequence of entries in insertion order, the order
  `update_config` writes them in.
- `MultipathConf` (multipath_conf.dfy): `update_config` as a state
  machine over lines, in both copies. The scripts copy appends a new
  section when the file has none; the compellent copy does not.

## Model

| member | source | states |
|---|---|---|
| Minutes.MinutesConversion | compellent/utils.py:13-78 | The result is never negative, and an empty string is an error. A string that ends in a modifier converts to a whole number of hours. The "multiplier not assigned" branch is unreachable. |
| Minutes.UnitMinutes | compellent/utils.py:64-76 | Exactly the modifiers `hdwmy` have a unit, and each unit is a positive whole number of hours. |
| Minutes.PlainNumber | compellent/utils.py:37-46 | A number without a modifier is read whole, allowing leading blanks and a `+` sign. |
| Minutes.NegativeIsError | compellent/utils.py:44-59 | A negative count is refused, with or without a modifier. |
| Minutes.ModifierScales | compellent/utils.py:49-78 | A count followed by `h`, `d`, `w`, `m` or `y` in either case gives 60, 1440, 10080, 43200 or 525600 minutes per unit. |
| Minutes.CaseInsensitive | compellent/utils.py:49 | An upper-case modifier gives the same result as its lower-case spelling. |
| Minutes.UnknownModifier | compellent/utils.py:61-62 | Any other trailing character is refused as an invalid modifier. |
| Minutes.NonIntegerCount | compellent/utils.py:51-55 | A count that is not an integer, or is empty, is a format error. |
| Minutes.DocExamples | compellent/utils.py:27-29 | The docstring examples: `5d` gives 7200 and `3m` gives 129600. |
| Minutes.PlainAndUpperExamples | compellent/utils.py:37-78 | `15` gives 15 and `5D` gives 7200. |
| Minutes.FormatErrorExamples | compellent/utils.py:49-55 | `xd` and a bare `h` are format errors. |
| Minutes.NotAnIntegerExactly | compellent/utils.py:37-41 | A string fails with "cannot convert to integer" exactly when it ends in a digit and is not a padded, optionally signed digit run. |
| Minutes.DecimalNotAnInteger | compellent/utils.py:37-41 | `1.5` and `5d5` fail with "cannot convert to integer". |
| Text.WordsSpaced | scripts/delete_devices.py:293 | `split()` recovers exactly the words that were joined with blanks. |
| Text.StripPadded | compellent/delete_devices.py:91 | `strip()` removes exactly the blank padding around a trimmed core. |
| Text.SplitUnlines | compellent/delete_devices.py:45 | `splitlines()` recovers the lines joined with line feeds. |
| Text.ParseIntOfNumeral | compellent/utils.py:39 | `int()` reads a padded, optionally signed numeral as its value. |
| Text.ParseIntAccepts | compellent/utils.py:39-41 | `int()` succeeds exactly on blank space, an optional `+` or `-`, a non-empty digit run and blank space. Every such reading gives the signed value of the digit run, so leading zeros and `-0` are read too. |
| Text.ParsedNumeralText | compellent/utils.py:39-41 | Whatever `int()` reads splits into padding, a sign and digits. |
| Text.StripShape | compellent/delete_devices.py:91 | What `strip()` removes is blank space at the two ends. |
| Text.ParsedSplit | compellent/utils.py:39-41 | The stripped text `int()` reads is a sign and a digit run. |
| Text.SignedDigitsValue | compellent/utils.py:39 | A stripped signed digit run is read as its signed value. |
| Text.DigitsStripped | compellent/utils.py:39 | `strip()` leaves a padded signed digit run without its padding. |
| Topology.ParseHctl | compellent/delete_devices.py:30 | Whatever the address pattern `\d+:\d+:\d+:\d+` accepts is four digit runs joined by colons, and is followed by a non-digit. |
| Topology.ParseHctlRender | compellent/delete_devices.py:30 | Every four-part address is recognised with its tail: the parse is a left inverse of rendering. |
| Topology.ParsePathLine | compellent/delete_devices.py:30 | A recognised path line is the concatenation of its valid pieces: indent, tree mark, dash, address, disk, and `major:minor`. |
| Topology.ParsePathLineRender | compellent/delete_devices.py:30 | Every well-formed path line is recognised with exactly its pieces and its tail. |
| Topology.PathDiskShape | compellent/delete_devices.py:66-68 | A line names disk `d` exactly when it has the path-line shape with `d` in the disk position. |
| Topology.MembersFromPathLines | compellent/delete_devices.py:66-68 | A disk is a member of an alias exactly when one line of that alias's `multipath -ll` output names it. |
| Topology.UnindentedNotPathLine | compellent/delete_devices.py:30 | The header line of `multipath -ll` starts without a blank, so it names no disk. |
| Topology.SampleOtherLines | compellent/delete_devices.py:30 | The `size=`, policy and header lines of the sample output name no disk. |
| Topology.SamplePathLine | compellent/delete_devices.py:30 | The sample line `  \|- 34:0:0:1 sdg 8:96` names `sdg`, whatever follows the minor number. |
| Topology.AliasGroups | compellent/delete_devices.py:45-68 | The keys are the stripped alias lines, and each maps to the members read from its own output. |
| Topology.ParseMountSource | compellent/delete_devices.py:89 | A recognised mount source is `/dev/` and a letter run not starting with `mapper`, or `/dev/mapper/` and a word run. |
| Topology.ParseMountSourceRender | compellent/delete_devices.py:89 | Every such source is recognised with its name and tail. The negative lookahead rejects only names starting `mapper`. |
| Topology.PartitionMountProtectsDisk | compellent/delete_devices.py:89-96 | A mounted partition `/dev/sda2` protects its disk `sda`. |
| Topology.MapperMountProtectsMembers | compellent/delete_devices.py:97-101 | A mounted `/dev/mapper/<alias>` protects the alias and every member disk the dictionary knows for it. |
| Topology.ParsePvName | compellent/delete_devices.py:117 | A recognised `pvs` name is `/dev/` and a letter run, followed by a non-letter. |
| Topology.ParsePvNameRender | compellent/delete_devices.py:117 | Every such name is recognised with its letters and tail. |
| Topology.PartitionPvProtectsDisk | compellent/delete_devices.py:117-121 | An indented physical volume `/dev/sdb1` protects the disk `sdb`. |
| Topology.MapperPvProtectsMapper | compellent/delete_devices.py:117-121 | A physical volume `/dev/mapper/<alias>` protects a device named `mapper`, not the alias. |
| Topology.MapperPvUnprotected | compellent/delete_devices.py:117-121 | As written, such a physical volume leaves the alias and its members unprotected. |
| Topology.ProtectedDevices | compellent/delete_devices.py:70-121 | A device is protected exactly when a `findmnt` line protects it (directly or as a member of a mounted alias), or a `pvs` line names it. |
| Topology.DiskAssociations | compellent/delete_devices.py:21-123 | The keys are the listed aliases other than `protected`. Each maps to the members read from its output. The protected set is kept apart, as after `pop('protected')`. |
| Topology.ProtectedDevicesCorrected | compellent/delete_devices.py:117-121 | Corrected: `pvs` lines are read like mount sources, so a line protects exactly what a `findmnt` line naming the same device would. |
| Topology.DiskAssociationsCorrected | compellent/delete_devices.py:21-123 | The same dictionary, with the corrected protected set. |
| Topology.CorrectedPvProtectsMembers | compellent/delete_devices.py:117-121 | Corrected, a multipath physical volume protects its alias and every member disk. |
| Resolver.ContainingSplits | compellent/delete_devices.py:143-151 | The holders of two disk sets together are the holders of each set. `Containing` is the set of aliases with a member among the disks. |
| Resolver.ContainingOne | compellent/delete_devices.py:144-147 | The holders of one disk are what the inner loop collects for it. `Holding` is the set of aliases with that disk as a member. |
| Resolver.UnionSplits | compellent/delete_devices.py:164-165 | Gathering the members of two alias sets together gathers those of each. `Union` is the set of members of the named aliases that are keys. |
| Resolver.UnionKeysOnly | compellent/delete_devices.py:164-165 | Names that are not keys of the dictionary add no members. |
| Resolver.Expand | compellent/delete_devices.py:143-151 | Nothing requested is dropped. Every alias holding a requested disk joins, with all its members. Nothing else joins: disks added later are not expanded again. |
| Resolver.AddHolders | compellent/delete_devices.py:144-151 | The inner loop adds exactly the aliases holding one disk, and their members. |
| Resolver.ExpandSiblings | compellent/delete_devices.py:143-151 | The loop over a snapshot of the disks computes `Expand`. |
| Resolver.ContainingStep | compellent/delete_devices.py:143-151 | One more disk adds exactly its holders, and their members. |
| Resolver.Filter | compellent/delete_devices.py:154-162 | The protected names are removed from both sets. The refusal lists exactly the protected names selected. |
| Resolver.NothingToRemove | compellent/delete_devices.py:154-155 | The refusal branch is skipped exactly when removing the protected names would change nothing. |
| Resolver.Materialise | compellent/delete_devices.py:164-165 | Success exactly when every alias is a key, otherwise a `KeyError` naming the missing aliases. On success the members of every alias join the disks, and nothing else does. |
| Resolver.MaterialiseMembers | compellent/delete_devices.py:164-165 | The loop over the aliases computes `Materialise`. |
| Resolver.Resolve | compellent/delete_devices.py:126-165 | The refused names are the protected ones among the requested names, the holders of requested disks, and their members. No protected alias is planned. Unprotected requested disks and aliases are kept. Unprotected holders come with all their members, and every planned alias's members are planned. |
| Resolver.ResolveFails | compellent/delete_devices.py:164-165 | Resolution fails exactly when an unprotected requested alias is not in the dictionary. |
| Resolver.PlannedDisksAccounted | compellent/delete_devices.py:143-165 | Every planned disk was requested, shares an alias with a requested disk, or belongs to a planned alias. |
| Resolver.PlannedAliasesRequested | compellent/delete_devices.py:143-151 | Every planned alias was requested or holds a requested disk. |
| Resolver.DisksSafeFor | compellent/delete_devices.py:154-165 | Disks of a protected base whose holders are all protected are never planned. |
| Resolver.DisksSafeWhenClosed | compellent/delete_devices.py:154-165 | When every alias holding a protected name is itself protected, no protected disk is planned. |
| Resolver.ProtectedMemberReadded | compellent/delete_devices.py:154-165 | Without that precondition, requesting `mpatha` = {`sdb`, `sdc`} with `sdc` protected plans `sdc` for deletion. |
| Resolver.Guard | compellent/delete_devices.py:154-162 | Corrected protection adds every alias holding a protected name, and nothing else. |
| Resolver.ResolveGuarded | compellent/delete_devices.py:154-165 | Corrected: no protected disk or alias is ever planned, for any topology. |
| Resolver.GuardedSafe | compellent/delete_devices.py:154-165 | The guarded plan avoids every originally protected name. |
| Resolver.GuardKeepsClosed | compellent/delete_devices.py:154-165 | On a topology already closed under membership, the guard changes nothing. |
| Resolver.GuardRefusesHolder | compellent/delete_devices.py:154-162 | With the guard, an alias holding a protected disk is refused whole. |
| Resolver.OnePathTakesAll | compellent/delete_devices.py:143-151 | Requesting one path of an unprotected alias plans the alias and all its paths. |
| Resolver.MountedAliasRefused | compellent/delete_devices.py:154-162 | Requesting a protected alias plans nothing and refuses it. |
| Resolver.LoneDiskPasses | compellent/delete_devices.py:143-165 | A disk in no alias, and not protected, is planned alone. |
| Resolver.UnionOne | compellent/delete_devices.py:164-165 | The members gathered from one alias are its own. |
| Resolver.ExpandIdle | compellent/delete_devices.py:143-151 | A request whose disks no alias holds is not expanded. |
| Request.FirstOutside | scripts/delete_devices.py:295-327 | The position found is the first name that is not allowed, or none when all are allowed. |
| Request.ValidateRequest | scripts/delete_devices.py:274-333 | Success exactly when every disk is a valid SCSI device (one of `ValidDisks`, the listed block devices named `sd…`), every alias is a token of the listing, and something was selected. The selection then holds exactly the names given. Otherwise the error is the first invalid disk, else the first invalid alias, else "nothing selected". |
| Request.AliasTokenAccepted | scripts/delete_devices.py:293 | An alias is accepted exactly when it is one of the blank-separated tokens, not merely part of one. |
| Request.NonScsiRejected | scripts/delete_devices.py:276-280 | A listed device not named `sd…` is rejected as an invalid disk. |
| Planner.DeletePlan | scripts/delete_devices.py:274-333 | As written: a rejected request yields its rejection, and a plan exists only for a valid request. No protected alias is planned. No protected disk is planned when every alias holding a protected name is itself protected. Every planned alias was requested or holds a requested disk. |
| Planner.DeletePlanCorrected | scripts/delete_devices.py:274-333 | With `pvs` read like mount sources and holders of protected names refused: rejections as above, and no protected disk or alias is ever planned. Every planned alias was requested or holds a requested disk. |
| WwidAlias.IndexOf | scripts/change_wwid_alias.py:63 | The position found is the first one holding the key, or none when the key is absent. |
| WwidAlias.IndexOfFirst | scripts/change_wwid_alias.py:63 | The first position holding a key is the one found. |
| WwidAlias.Lookup | scripts/change_wwid_alias.py:63-64 | A key is absent exactly when no entry has it; otherwise the value found is an entry's alias. |
| WwidAlias.LookupUnique | scripts/change_wwid_alias.py:64 | In a dictionary, each entry is what its key looks up. |
| WwidAlias.Put | scripts/change_wwid_alias.py:84 | `d[k] = v`: an existing key keeps its place in `Keys` and a new key goes last. The key then maps to the new value, every other key is unchanged, and keys stay unique. |
| WwidAlias.ParseDm | scripts/change_wwid_alias.py:195 | The tail of the header pattern is `dm-`, digits, blanks and the vendor string. |
| WwidAlias.ParseHeader | scripts/change_wwid_alias.py:195 | A recognised header is its valid pieces written out: alias, blanks, parenthesised WWID, blanks, `dm-N`, blanks, vendor. |
| WwidAlias.ParseDmRender | scripts/change_wwid_alias.py:195 | Every `dm-N` tail is recognised with its pieces. |
| WwidAlias.ParseHeaderRender | scripts/change_wwid_alias.py:195 | Every header line is recognised with its pieces, whatever follows the vendor string. |
| WwidAlias.HeaderEntry | scripts/change_wwid_alias.py:196-200 | A line gives an entry exactly when it is a header. |
| WwidAlias.HeaderLineEntry | scripts/change_wwid_alias.py:196-200 | A header line gives its own WWID and alias. |
| WwidAlias.IndentedLineNoEntry | scripts/change_wwid_alias.py:196-200 | A path line, which starts blank, gives nothing. |
| WwidAlias.Recorded | scripts/change_wwid_alias.py:196-200 | The dictionary filled line by line has unique keys. |
| WwidAlias.RecordedLookup | scripts/change_wwid_alias.py:196-200 | A WWID is absent exactly when no line names it; otherwise it maps to the alias of the last line naming it. |
| WwidAlias.RecordedAbsent | scripts/change_wwid_alias.py:196-200 | A WWID is absent from the table exactly when no line names it. |
| WwidAlias.RecordedLast | scripts/change_wwid_alias.py:196-200 | A later line for the same WWID overwrites an earlier one: the last line naming it decides its alias. |
| WwidAlias.WwidAliases | scripts/change_wwid_alias.py:168-202 | `wwid_alias()` yields a dictionary with unique keys. |
| WwidAlias.WwidAliasesLookup | scripts/change_wwid_alias.py:168-202 | A WWID is absent exactly when no header names it; otherwise it maps to the alias of the last header naming it. |
| WwidAlias.ParsePair | scripts/change_wwid_alias.py:57-62 | A recognised pair is a word-run WWID, a colon and a word-run alias. |
| WwidAlias.ParsePairRender | scripts/change_wwid_alias.py:57-62 | Every such pair is recognised with its WWID, alias and tail. |
| WwidAlias.ApplyPair | scripts/change_wwid_alias.py:63-84 | A known WWID whose current alias is not mounted takes the new alias. An unknown or mounted one leaves the dictionary unchanged. Other keys never change, and the keys stay the same. |
| WwidAlias.PairEntries | scripts/change_wwid_alias.py:58-86 | Success exactly when every pair is well formed, giving one entry per pair. Otherwise the error names the first malformed pair. |
| WwidAlias.ApplyPairs | scripts/change_wwid_alias.py:58-84 | Applying pairs never adds or removes a key, and keeps keys unique. |
| WwidAlias.ProcessAliases | scripts/change_wwid_alias.py:47-86 | Success exactly when every pair is well formed, with the keys unchanged. Otherwise the error is the first malformed pair. |
| WwidAlias.UnknownWwidIgnored | scripts/change_wwid_alias.py:63 | A pair for an unknown WWID changes nothing. |
| WwidAlias.MountedKept | scripts/change_wwid_alias.py:78-80 | An entry whose alias is mounted keeps it through every pair. |
| WwidAlias.LastPairWins | scripts/change_wwid_alias.py:58-84 | When neither its current alias nor any alias a pair gives it is mounted, a known WWID ends with the alias of the last pair naming it, or keeps its alias when none does. |
| MultipathConf.Delta | scripts/change_wwid_alias.py:121-125 | One line moves the bracket level by at most one. |
| MultipathConf.EntryLines | scripts/change_wwid_alias.py:133-139 | Each entry is written as four lines. |
| MultipathConf.Entries | scripts/change_wwid_alias.py:133-139 | Entry `i` is written as lines `4i` to `4i+3`: `multipath {`, the WWID, the alias and `}`, tab-indented. |
| MultipathConf.Step | scripts/change_wwid_alias.py:121-148 | The level moves by the line's brackets, and a header marks the file configured. A header is written followed by the entries. Outside the section a line is written as is. Inside, a line is dropped unless it closes the section at level 0. |
| MultipathConf.Rewrite | scripts/change_wwid_alias.py:109-148 | The final level is the start level plus the file's bracket balance. The file counts as configured exactly when some line is a header. Every line written is an input line or an entry line. |
| MultipathConf.UpdateConfig | scripts/change_wwid_alias.py:150-165 | The section is appended exactly when no line is a header and the dictionary is not empty. |
| MultipathConf.UpdateConfigCompellent | compellent/change_wwid_alias.py:109-146 | Every line written is an input line or an entry line. |
| MultipathConf.Verbatim | scripts/change_wwid_alias.py:143-148 | Outside the section, lines without a header are written unchanged. |
| MultipathConf.RewriteConcat | scripts/change_wwid_alias.py:109 | Running the loop over two runs of lines in turn is running it over both. |
| MultipathConf.BodyDropped | scripts/change_wwid_alias.py:140-142 | Inside the section, lines that never bring the level back to 0 are dropped. |
| MultipathConf.RewriteOne | scripts/change_wwid_alias.py:109-148 | The loop over one line is one pass of its body. |
| MultipathConf.HeaderStep | scripts/change_wwid_alias.py:121-139 | The header line, met outside any bracket, is kept and followed by the entries, and the loop is then inside the section. |
| MultipathConf.BodyClosed | scripts/change_wwid_alias.py:121-145 | Inside the section the body is dropped and the closing line is kept, leaving the loop outside again. |
| MultipathConf.SectionAlone | scripts/change_wwid_alias.py:121-148 | A section read outside any bracket keeps its header and closing line, with its body replaced by the entries. |
| MultipathConf.SectionRewritten | compellent/change_wwid_alias.py:109-146 | In a file with one balanced section, both copies replace the section body by the entries and keep every other line unchanged. |
| MultipathConf.NoSection | scripts/change_wwid_alias.py:150-165 | A file without a header is left unchanged by the compellent copy. The scripts copy appends a new section when there are entries. |

## Left out

- Running the commands, reading `/sys/block`, writing the sysfs `state`
  and `delete` files, and `multipath -f`: their outputs are inputs and
  their effects are the plan.
- The confirmation prompt and `--assume-yes`: they decide whether the
  plan is carried out, not what it is.
- `restart_multipath`, the `main` of the renaming tool and the `main` of
  the compellent deletion module: argument handling and I/O only.
- The root-privilege check and `argparse` in the scripts `main`.
- connection.py, rescan_devices.py, `resolve_host` and `refresh` in
  compellent/utils.py: these are outside the modelled core.
- Python 2 dictionary order:
  - `WwidAlias.Put` keeps insertion order, as Python 3 dicts do;
  - the Python 2 copy may write entries in another order.
- Set iteration order in messages: the refusal and `KeyError` messages
  carry sets.
- Character classes are ASCII:
  - `\s`, `\d` and `\w` on Python 3 `str` also match other Unicode
    characters;
  - `splitlines()` also splits at the other Unicode line boundaries;
  - `int()` also accepts other Unicode digits and `_` separators;
  - `strip()` and `split()` also treat `\x1c`–`\x1f`, `\x85` and
    `\xa0` as blank space.
- `WwidAlias.ProcessAliases`: the compellent copy raises `NameError`
  (its message names an undefined variable) instead of its own
  exception. Both are modelled as `Malformed`.
- `WwidAlias.ProcessAliases`: the pairs before a malformed one are
  applied in the source. That table is then discarded by the exit, so
  only the failure is modelled.
- `Minutes.MinutesConversion`: an empty string raises `IndexError` in
  the source. It is modelled as the `EmptyTime` error.
- `MultipathConf.UpdateConfig`: the `'a'` reopen writes after the
  rewritten text. A file that does not end in a line feed therefore has
  its last line joined with the blank line that starts the appended
  section; the model keeps them as separate chunks.
- `Planner.DeletePlan`: safe for disks only under the membership
  condition, because the script re-adds protected members (see
  Findings); `Planner.DeletePlanCorrected` is the safe composition.
- `MultipathConf.SectionRewritten`: stated for a file with one section
  whose header opens it on its own line. A one-line `multipaths { }`
  leaves the level at 0 while inside the section, and the rest of the
  file is then consumed differently.

## Findings

| source | as written | input that shows it | evidently intended | confidence | as-written member | corrected member |
|---|---|---|---|---|---|---|
| compellent/delete_devices.py:154-165 | Protection is checked before step 3. Step 3 then adds every member of each surviving alias to the disks, protected or not. | Dictionary `mpatha` = {`sdb`, `sdc`}, with `/dev/sdc1` mounted (protected = {`sdc`}), and the request `--multipath mpatha`: `sdc` is planned for deletion. | No mounted or LVM disk is ever deleted, as the docstring at lines 24-25 and the comment at line 153 promise. | high; not executed | Resolver.ProtectedMemberReadded | Resolver.ResolveGuarded, Planner.DeletePlanCorrected |
| compellent/delete_devices.py:117-121 | A `pvs` name `/dev/mapper/<alias>` matches `/dev/(?P<disk>[a-zA-Z]+)` with `disk` = `mapper`. | `pvs` prints `  /dev/mapper/mpatha`, and the request is `--multipath mpatha`: neither `mpatha` nor its members are protected. | A physical volume on a multipath device protects the alias and its members, as a mount of it does. | medium; not executed | Topology.MapperPvUnprotected | Topology.DiskAssociationsCorrected, Planner.DeletePlanCorrected |
