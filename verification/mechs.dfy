/** The installed-mechanism table the facade dispatches through: each
    entry is a mechanism OID and its context-level entry points. The
    lookup routines (_gss_find_mech, _gss_find_mech_no_default) live in
    lib/meta.c, which is not part of this model; they are modelled as a
    first-match search, where only the former substitutes the default
    mechanism, the first entry, for a NULL OID. */
module Mechs {
  import opened Bytes
  import opened Status
  import opened Oids
  import opened Gss
  import opened Shishi
  import Krb5Context

  /** One _gss_mech_api_t, reduced to the calls this model covers. */
  datatype Mech = Mech(
    oid: Oid,
    init: InitArgs -> Outcome<InitResult>,
    accept: AcceptArgs -> Outcome<AcceptResult>,
    delete: Ref<Option<Ctx>> -> Outcome<MajorStatus>,
    contextTime: (Ctx, bool) -> Outcome<TimeResult>)

  /** The Kerberos V5 entry as compiled in. */
  function Krb5Mechanism(ex: Exchange, names: NameOps): Mech {
    Mech(GssKrb5,
         args => Krb5Context.Init(ex, names, args),
         args => Krb5Context.Accept(ex, args),
         handle => Krb5Context.Delete(handle),
         (ctx, wantTime) => Krb5Context.ContextTime(ex, ctx, wantTime))
  }

  /** The same entry with init replaced by Krb5Context.InitCorrected. */
  function Krb5MechanismCorrected(ex: Exchange, names: NameOps): Mech {
    Krb5Mechanism(ex, names).(init := args => Krb5Context.InitCorrected(ex, names, args))
  }

  /** The first entry whose OID is `oid`, searching from `from`. */
  function IndexOf(table: seq<Mech>, oid: Oid, from: nat): (r: Option<nat>)
    requires from <= |table|
    ensures r.Some? ==> from <= r.value < |table| && table[r.value].oid == oid
    ensures r.Some? ==> forall j :: from <= j < r.value ==> table[j].oid != oid
    ensures r.None? ==> forall j :: from <= j < |table| ==> table[j].oid != oid
    decreases |table| - from
  {
    if from == |table| then None
    else if OidEqual(Some(table[from].oid), Some(oid)) then Some(from)
    else IndexOf(table, oid, from + 1)
  }

  /** _gss_find_mech: the default for a NULL OID, else an exact match. */
  function FindMech(table: seq<Mech>, oid: Option<Oid>): (r: Option<nat>)
    ensures oid.None? ==> r == (if |table| > 0 then Some(0) else None)
    ensures oid.Some? ==> r == FindMechNoDefault(table, oid)
  {
    match oid
    case None => if |table| > 0 then Some(0) else None
    case Some(o) => IndexOf(table, o, 0)
  }

  /** _gss_find_mech_no_default: an exact match or nothing. */
  function FindMechNoDefault(table: seq<Mech>, oid: Option<Oid>): (r: Option<nat>)
    ensures r.Some? ==> oid.Some? && r.value < |table| && table[r.value].oid == oid.value
    ensures r.None? && oid.Some? ==> forall j :: 0 <= j < |table| ==> table[j].oid != oid.value
    ensures oid.None? ==> r.None?
  {
    match oid
    case None => None
    case Some(o) => IndexOf(table, o, 0)
  }
}
