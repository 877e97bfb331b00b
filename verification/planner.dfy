/** The whole run of scripts/delete_devices.py up to the point where it
    acts: the request is validated, the topology is collected, and the
    three set steps decide what to flush and delete. The run is given as
    written, and with the corrected reading of the `pvs` lines and the
    guarded resolver, under which no protected name is ever planned. */
module Planner {
  import opened Results
  import opened Topology
  import opened Resolver
  import opened Request

  /** Why no plan was made: the request was rejected, or an alias given
      had no entry in the dictionary. */
  datatype PlanError = Rejected(reason: RequestError) | Unresolved(cause: ResolveError)

  /** `main` followed by `delete_devices` as written, given the
      `/sys/block` listing, the output of `multipath -l -v 1`, of
      `multipath -ll <alias>` for each alias, of `findmnt` and of `pvs`.
      No protected alias is planned, but a protected disk is kept out of
      the plan only when every alias holding a protected name is itself
      protected. */
  function DeletePlan(blockDevices: seq<string>, aliasListing: string, detail: string -> string,
                      mounts: string, pvs: string, standard: seq<string>, multipath: seq<string>): (r: Result<Plan, PlanError>)
    ensures ValidateRequest(blockDevices, aliasListing, standard, multipath).Failure? ==>
              r == Failure(Rejected(ValidateRequest(blockDevices, aliasListing, standard, multipath).error))
    ensures r.Success? ==> ValidateRequest(blockDevices, aliasListing, standard, multipath).Success?
    ensures r.Success? ==> r.value.aliases * DiskAssociations(aliasListing, detail, mounts, pvs).protected == {}
    ensures r.Success? && MembershipClosed(DiskAssociations(aliasListing, detail, mounts, pvs)) ==>
              r.value.disks * DiskAssociations(aliasListing, detail, mounts, pvs).protected == {}
    ensures r.Success? ==> forall a | a in r.value.aliases ::
              a in multipath || exists d :: d in standard && d in Members(detail(a))
  {
    match ValidateRequest(blockDevices, aliasListing, standard, multipath)
    case Failure(e) => Failure(Rejected(e))
    case Success(sel) =>
      var t := DiskAssociations(aliasListing, detail, mounts, pvs);
      match Resolve(t, sel)
      case Failure(e) => Failure(Unresolved(e))
      case Success(plan) =>
        PlannedAliasesRequested(t, sel);
        if MembershipClosed(t) then DisksSafeWhenClosed(t, sel); Success(plan) else Success(plan)
  }

  /** The same run with the two corrections of this model: `pvs` lines
      read like mount sources, and every alias holding a protected name
      treated as protected. Then no protected name is ever planned for
      deletion. */
  function DeletePlanCorrected(blockDevices: seq<string>, aliasListing: string, detail: string -> string,
                               mounts: string, pvs: string, standard: seq<string>, multipath: seq<string>): (r: Result<Plan, PlanError>)
    ensures ValidateRequest(blockDevices, aliasListing, standard, multipath).Failure? ==>
              r == Failure(Rejected(ValidateRequest(blockDevices, aliasListing, standard, multipath).error))
    ensures r.Success? ==> ValidateRequest(blockDevices, aliasListing, standard, multipath).Success?
    ensures r.Success? ==>
              var p := DiskAssociationsCorrected(aliasListing, detail, mounts, pvs).protected;
              r.value.disks * p == {} && r.value.aliases * p == {}
    ensures r.Success? ==> forall a | a in r.value.aliases ::
              a in multipath || exists d :: d in standard && d in Members(detail(a))
  {
    match ValidateRequest(blockDevices, aliasListing, standard, multipath)
    case Failure(e) => Failure(Rejected(e))
    case Success(sel) =>
      var t := DiskAssociationsCorrected(aliasListing, detail, mounts, pvs);
      match ResolveGuarded(t, sel)
      case Failure(e) => Failure(Unresolved(e))
      case Success(plan) =>
        PlannedAliasesRequested(Guard(t), sel);
        Success(plan)
  }
}
