/**
 * The two registration lists the generator emits as init() bodies: every extension
 * object under its DefaultBinary encoding identifier, and the service messages only.
 * The registries themselves (and what they do with duplicate identifiers) are not
 * part of this model; a list entry is one registration call in program order.
 */
module Registry {

  import opened GenTypes

  predicate HasSuffix(s: string, suffix: string) {
    |suffix| <= |s| && s[|s| - |suffix|..] == suffix
  }

  /** The name filter for the service registry. */
  predicate IsService(name: string) {
    HasSuffix(name, "Request") || HasSuffix(name, "Response") || name == "ServiceFault"
  }

  /** One registration call: the identifier's name in the id table and the type created. */
  datatype Registration = Registration(encodingId: string, typeName: string)

  function EncodingId(name: string): string {
    name + "_Encoding_DefaultBinary"
  }

  /** The extension-object registrations: one per object, in order. */
  function ExtObjectRegistrations(objs: seq<Type>): (r: seq<Registration>)
    ensures |r| == |objs|
    ensures forall k :: 0 <= k < |objs| ==>
      r[k] == Registration(EncodingId(objs[k].name), objs[k].name)
  {
    if objs == [] then []
    else
      var last := objs[|objs| - 1];
      ExtObjectRegistrations(objs[..|objs| - 1]) + [Registration(EncodingId(last.name), last.name)]
  }

  /** The service registrations: the objects whose name passes IsService, in order. */
  function ServiceRegistrations(objs: seq<Type>): (r: seq<Registration>)
    ensures |r| <= |objs|
  {
    if objs == [] then []
    else
      var last := objs[|objs| - 1];
      ServiceRegistrations(objs[..|objs| - 1]) +
        (if IsService(last.name) then [Registration(EncodingId(last.name), last.name)] else [])
  }

  /** Service registration distributes over concatenation, so it keeps the objects' order. */
  lemma {:induction false} ServiceRegistrationsAppend(a: seq<Type>, b: seq<Type>)
    ensures ServiceRegistrations(a + b) == ServiceRegistrations(a) + ServiceRegistrations(b)
    decreases |b|
  {
    if b == [] {
      assert a + b == a;
    } else {
      assert (a + b)[..|a + b| - 1] == a + b[..|b| - 1];
      ServiceRegistrationsAppend(a, b[..|b| - 1]);
    }
  }

  /**
   * The service registrations are exactly those extension-object registrations whose
   * type name passes the service filter.
   */
  lemma {:induction false} ServiceRegistrationsMembership(objs: seq<Type>)
    ensures forall x :: x in ServiceRegistrations(objs) <==>
      x in ExtObjectRegistrations(objs) && IsService(x.typeName)
  {
    if objs != [] {
      var init := objs[..|objs| - 1];
      ServiceRegistrationsMembership(init);
      var e, ei := ExtObjectRegistrations(objs), ExtObjectRegistrations(init);
      assert e == ei + [e[|objs| - 1]];
    }
  }

  /** The filter is on names: "Request"/"Response" must end the name, not start it. */
  /**
   * The service filter by construction instead of by suffix test: a name passes iff it is
   * some stem followed by "Request" or by "Response", or is exactly "ServiceFault".
   */
  lemma IsServiceIff(name: string)
    ensures IsService(name) <==>
      (exists stem :: name == stem + "Request") || (exists stem :: name == stem + "Response") ||
      name == "ServiceFault"
  {
    if HasSuffix(name, "Request") {
      assert name == name[..|name| - 7] + "Request";
    }
    if HasSuffix(name, "Response") {
      assert name == name[..|name| - 8] + "Response";
    }
    if exists stem :: name == stem + "Request" {
      var stem :| name == stem + "Request";
      assert name[|name| - 7..] == "Request";
    }
    if exists stem :: name == stem + "Response" {
      var stem :| name == stem + "Response";
      assert name[|name| - 8..] == "Response";
    }
  }

  lemma IsServiceExamples()
    ensures IsService("ReadRequest") && IsService("ReadResponse") && IsService("ServiceFault")
    ensures !IsService("RequestHeader") && !IsService("ResponseHeader") && !IsService("ReadValueId")
  {
  }
}
