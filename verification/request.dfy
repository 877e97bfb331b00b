/** Argument validation of `main` in scripts/delete_devices.py: the disks
    given with `--standard` must be SCSI block devices listed under
    `/sys/block`, the aliases given with `--multipath` must be tokens of the
    `multipath -l -v 1` listing, and at least one of either is required. The
    directory listing and the command output are inputs here. */
module Request {
  import opened Results
  import opened Text
  import opened Resolver

  /** The three ways `main` exits before resolving. Each message lists
      the names to choose from. */
  datatype RequestError =
    | InvalidDisk(disk: string, devices: set<string>)
    | InvalidAlias(alias: string, listed: seq<string>)
    | NothingSelected

  /** `disk[:2] == 'sd'`: the name starts with `sd`; a shorter name's
      slice is shorter than `sd`. */
  predicate IsScsiName(name: string) {
    |name| >= 2 && name[..2] == "sd"
  }

  /** The block devices accepted as disks: SCSI ones only, not floppies,
      optical drives or device-mapper nodes. */
  function ValidDisks(blockDevices: seq<string>): (r: set<string>)
    ensures forall d :: d in r <==> d in blockDevices && IsScsiName(d)
  {
    set d | d in blockDevices && IsScsiName(d)
  }

  /** The position of the first name not in `ok`, if any. */
  function FirstOutside(names: seq<string>, ok: set<string>): (r: Option<nat>)
    ensures r.None? <==> forall i | 0 <= i < |names| :: names[i] in ok
    ensures r.Some? ==> r.value < |names| && names[r.value] !in ok
    ensures r.Some? ==> forall j | 0 <= j < r.value :: names[j] in ok
  {
    if names == [] then None
    else if names[0] !in ok then Some(0)
    else match FirstOutside(names[1..], ok)
      case None => None
      case Some(i) => Some(i + 1)
  }

  /** The set of the names given. */
  function Given(names: seq<string>): set<string> {
    set x | x in names
  }

  /** The disks are checked first, in the order given, then the aliases;
      the first name rejected ends the run. An alias must equal a
      whitespace-separated token of the listing, while the message lists
      its lines. */
  function ValidateRequest(blockDevices: seq<string>, aliasListing: string,
                           standard: seq<string>, multipath: seq<string>): (r: Result<Selection, RequestError>)
    ensures r.Success? <==>
              && (forall i | 0 <= i < |standard| :: standard[i] in blockDevices && IsScsiName(standard[i]))
              && (forall i | 0 <= i < |multipath| :: multipath[i] in Words(aliasListing))
              && (standard != [] || multipath != [])
    ensures r.Success? ==> forall d :: d in r.value.disks <==> d in standard
    ensures r.Success? ==> forall a :: a in r.value.aliases <==> a in multipath
    ensures r.Success? ==> r.value.disks != {} || r.value.aliases != {}
    ensures r == Failure(NothingSelected) <==> standard == [] && multipath == []
    ensures r.Failure? && r.error.InvalidDisk? ==>
              exists i | 0 <= i < |standard| ::
                && standard[i] == r.error.disk
                && !(standard[i] in blockDevices && IsScsiName(standard[i]))
                && forall j | 0 <= j < i :: standard[j] in blockDevices && IsScsiName(standard[j])
    ensures r.Failure? && r.error.InvalidAlias? ==>
              && (forall i | 0 <= i < |standard| :: standard[i] in blockDevices && IsScsiName(standard[i]))
              && exists i | 0 <= i < |multipath| ::
                   && multipath[i] == r.error.alias
                   && multipath[i] !in Words(aliasListing)
                   && forall j | 0 <= j < i :: multipath[j] in Words(aliasListing)
  {
    var disks := ValidDisks(blockDevices);
    var tokens := Given(Words(aliasListing));
    match FirstOutside(standard, disks)
    case Some(i) => Failure(InvalidDisk(standard[i], disks))
    case None =>
      match FirstOutside(multipath, tokens)
      case Some(i) => Failure(InvalidAlias(multipath[i], SplitLines(aliasListing)))
      case None =>
        if standard == [] && multipath == [] then Failure(NothingSelected)
        else
          assert standard != [] ==> standard[0] in Given(standard);
          assert multipath != [] ==> multipath[0] in Given(multipath);
          Success(Selection(Given(standard), Given(multipath)))
  }

  /** Given a listing of space-separated aliases, a requested alias is
      accepted exactly when it is one of them: a prefix or a part of one
      is not enough. */
  lemma AliasTokenAccepted(blockDevices: seq<string>, aliases: seq<string>, alias: string)
    requires forall i | 0 <= i < |aliases| :: aliases[i] != [] && All(aliases[i], IsNonSpace)
    ensures ValidateRequest(blockDevices, Spaced(aliases), [], [alias]).Success?
            <==> alias in aliases
  {
    WordsSpaced(aliases);
  }

  /** A name that is not a SCSI device is rejected even when it is listed
      under `/sys/block`. */
  lemma NonScsiRejected(blockDevices: seq<string>, name: string)
    requires name in blockDevices && !IsScsiName(name)
    ensures ValidateRequest(blockDevices, "", [name], []) == Failure(InvalidDisk(name, ValidDisks(blockDevices)))
  {
  }
}
