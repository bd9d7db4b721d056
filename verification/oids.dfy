/** Object identifiers and OID sets (lib/misc.c): byte-exact equality,
    copying, and a duplicate-free set with add, test and release. */
module Oids {
  import opened Bytes
  import opened Status

  /** A gss_OID_desc: its `length` is the length of `elements`. */
  type Oid = seq<byte>

  /** {iso(1) member-body(2) US(840) mit(113554) infosys(1) gssapi(2) krb5(2)}. */
  const GssKrb5: Oid := [0x2a, 0x86, 0x48, 0x86, 0xf7, 0x12, 0x01, 0x02, 0x02]

  /** The Kerberos principal name type, GSS_KRB5 followed by krb5_name(1). */
  const GssKrb5NtPrincipalName: Oid := [0x2a, 0x86, 0x48, 0x86, 0xf7, 0x12, 0x01, 0x02, 0x02, 0x01]

  /** gss_oid_equal; None stands for a NULL gss_OID. */
  function OidEqual(first: Option<Oid>, second: Option<Oid>): (r: bool)
    ensures r <==> first.Some? && second.Some? && first.value == second.value
  {
    if first.Some? && second.Some? && |first.value| == |second.value| then
      MemEqualIsPrefixEquality(first.value, second.value, |second.value|);
      MemEqual(first.value, second.value, |second.value|)
    else
      false
  }

  /** The status of a copy and the descriptor it filled in (None: untouched). */
  datatype OidResult = OidResult(status: MajorStatus, oid: Option<Oid>)

  /** gss_copy_oid: a NULL or empty source is refused. */
  function CopyOid(src: Option<Oid>): (r: OidResult)
    ensures r.status == Complete <==> src.Some? && |src.value| > 0
    ensures r.status != Complete ==> r.status == Fatal(Failure) && r.oid == None
    ensures r.status == Complete ==> OidEqual(r.oid, src)
  {
    if src.None? || |src.value| == 0 then OidResult(Fatal(Failure), None)
    else OidResult(Complete, Some(src.value))
  }

  /** gss_duplicate_oid: the same checks, then a copy into a fresh descriptor. */
  function DuplicateOid(src: Option<Oid>): (r: OidResult)
    ensures r.status == Complete <==> src.Some? && |src.value| > 0
    ensures r.status != Complete ==> r.status == Fatal(Failure) && r.oid == None
    ensures r.status == Complete ==> OidEqual(r.oid, src)
  {
    if src.None? || |src.value| == 0 then OidResult(Fatal(Failure), None)
    else CopyOid(src)
  }

  /** A gss_OID_set_desc: `count` is the length of `elements`. */
  datatype OidSet = OidSet(elements: seq<Oid>)

  /** The largest size_t; `count + 1 == 0` exactly when count is this. */
  const SizeMax: int := 0xFFFF_FFFF_FFFF_FFFF

  /** No OID occurs twice in the set. */
  predicate DuplicateFree(s: OidSet) {
    forall i, j :: 0 <= i < j < |s.elements| ==> s.elements[i] != s.elements[j]
  }

  /** gss_create_empty_oid_set. */
  function CreateEmptyOidSet(): (r: (MajorStatus, OidSet))
    ensures r.0 == Complete
    ensures |r.1.elements| == 0 && DuplicateFree(r.1)
  {
    (Complete, OidSet([]))
  }

  /** gss_test_oid_set_member: a linear scan comparing length and bytes. */
  method TestOidSetMember(member: Option<Oid>, oidSet: OidSet) returns (status: MajorStatus, present: bool)
    ensures status == Complete
    ensures present <==> member.Some? && member.value in oidSet.elements
  {
    status := Complete;
    present := false;
    if member.None? {
      return;
    }
    var m := member.value;
    var i := 0;
    while i < |oidSet.elements|
      invariant 0 <= i <= |oidSet.elements|
      invariant forall j :: 0 <= j < i ==> oidSet.elements[j] != m
    {
      var cur := oidSet.elements[i];
      if |cur| == |m| {
        MemEqualIsPrefixEquality(cur, m, |m|);
        if MemEqual(cur, m, |m|) {
          assert cur[..|cur|] == cur && m[..|m|] == m;
          assert oidSet.elements[i] == m;
          present := true;
          return;
        }
      }
      i := i + 1;
    }
  }

  /** gss_add_oid_set_member: refuses a NULL or empty member, leaves the set
      alone when the member is already there, refuses to grow a set whose
      count would wrap, and otherwise appends a copy of the member. */
  method AddOidSetMember(member: Option<Oid>, oidSet: OidSet) returns (status: MajorStatus, oidSet': OidSet)
    requires |oidSet.elements| <= SizeMax
    ensures |oidSet'.elements| <= SizeMax
    ensures member.None? || |member.value| == 0 ==> status == Fatal(Failure) && oidSet' == oidSet
    ensures member.Some? && |member.value| > 0 && member.value in oidSet.elements ==> status == Complete && oidSet' == oidSet
    ensures member.Some? && |member.value| > 0 && member.value !in oidSet.elements ==>
              if |oidSet.elements| == SizeMax then status == Fatal(Failure) && oidSet' == oidSet
              else status == Complete && oidSet'.elements == oidSet.elements + [member.value]
    ensures status == Complete ==> member.Some? && member.value in oidSet'.elements
    ensures DuplicateFree(oidSet) ==> DuplicateFree(oidSet')
  {
    oidSet' := oidSet;
    if member.None? || |member.value| == 0 {
      return Fatal(Failure), oidSet;
    }
    var present;
    status, present := TestOidSetMember(member, oidSet);
    if status != Complete {
      return;
    }
    if present {
      return Complete, oidSet;
    }
    if (|oidSet.elements| + 1) % (SizeMax + 1) == 0 {
      return Fatal(Failure), oidSet;
    }
    var copy := CopyOid(member);
    if copy.status != Complete {
      return copy.status, oidSet;
    }
    oidSet' := OidSet(oidSet.elements + [copy.oid.value]);
    status := Complete;
  }

  /** gss_release_oid_set: the handle ends up GSS_C_NO_OID_SET, whether or
      not it already was. */
  function ReleaseOidSet(oidSet: Option<OidSet>): (r: (MajorStatus, Option<OidSet>))
    ensures r.0 == Complete && r.1.None?
  {
    (Complete, None)
  }

  /** gss_release_buffer: a present buffer keeps its descriptor but its
      length becomes zero; GSS_C_NO_BUFFER (None) is left alone. */
  function ReleaseBuffer(buffer: Option<seq<byte>>): (r: (MajorStatus, Option<seq<byte>>))
    ensures r.0 == Complete
    ensures r.1.Some? <==> buffer.Some?
    ensures r.1.Some? ==> |r.1.value| == 0
  {
    if buffer.None? then (Complete, None) else (Complete, Some([]))
  }

  /** gss_indicate_mechs over the OIDs of the installed mechanisms, in table
      order: each is added once, and a failed add releases the set. */
  method IndicateMechs(installed: seq<Oid>) returns (status: MajorStatus, mechSet: Option<OidSet>)
    ensures status == Complete ==> mechSet.Some? && DuplicateFree(mechSet.value)
    ensures status == Complete ==> forall o :: o in mechSet.value.elements <==> o in installed
    ensures status != Complete ==> mechSet.None?
    ensures (forall i :: 0 <= i < |installed| ==> |installed[i]| > 0) && |installed| < SizeMax ==>
              status == Complete
  {
    var created := CreateEmptyOidSet();
    status := created.0;
    var s := created.1;
    var i := 0;
    while i < |installed|
      invariant 0 <= i <= |installed|
      invariant status == Complete
      invariant DuplicateFree(s)
      invariant |s.elements| <= i && |s.elements| <= SizeMax
      invariant forall o :: o in s.elements <==> o in installed[..i]
    {
      var st, s' := AddOidSetMember(Some(installed[i]), s);
      if st != Complete {
        var released := ReleaseOidSet(Some(s));
        return st, released.1;
      }
      assert installed[..i + 1] == installed[..i] + [installed[i]];
      s := s';
      i := i + 1;
    }
    assert installed[..i] == installed;
    return Complete, Some(s);
  }
}
