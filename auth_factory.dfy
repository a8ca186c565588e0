/** The registry of ACME DNS authenticators: a table from each class's
    `NAME` to the class, filled once at import time. */
module AuthFactory {
  import opened Wrappers
  import opened PyStr
  import Miab

  /** The authenticator classes the module registers. */
  datatype Kind = CloudFlare | Route53 | Shell | MailInABox

  /** An authenticator class, known by its kind and its `NAME`. */
  datatype AuthenticatorClass = AuthenticatorClass(kind: Kind, name: string)

  /** `errno.ENOENT`. */
  const ENOENT := 2

  /** `CallError(message, errno=...)`. */
  datatype CallError = CallError(message: string, errno: int)

  /** The message of a failed lookup. */
  function NotFoundMessage(name: string): string
  {
    "Unable to locate " + Repr(name) + " authenticator."
  }

  /** `AuthenticatorFactory`: the `_creators` table. */
  class AuthenticatorFactory {
    var creators: map<string, AuthenticatorClass>

    /** A fresh factory has an empty table. */
    constructor ()
      ensures creators == map[]
    {
      creators := map[];
    }

    /** `register`: file `a` under its `NAME`, replacing any earlier class of
        that name and leaving every other name as it was. */
    method Register(a: AuthenticatorClass)
      modifies this
      ensures creators == old(creators)[a.name := a]
      ensures Authenticator(a.name) == Success(a)
      ensures forall n :: n != a.name ==> Authenticator(n) == old(Authenticator(n))
    {
      creators := creators[a.name := a];
    }

    /** `authenticator`: the class filed under `name`, or `CallError` with
        `ENOENT` when there is none. */
    function Authenticator(name: string): (r: Result<AuthenticatorClass, CallError>)
      reads this
      ensures r.Success? <==> name in creators
      ensures r.Success? ==> r.value == creators[name] && r.value in creators.Values
      ensures r.Failure? ==> r.error == CallError(NotFoundMessage(name), ENOENT)
    {
      if name !in creators then Failure(CallError(NotFoundMessage(name), ENOENT))
      else Success(creators[name])
    }

    /** `get_authenticators`: the whole table, which answers every lookup
        the way `authenticator` does. */
    function GetAuthenticators(): (m: map<string, AuthenticatorClass>)
      reads this
      ensures forall name :: name in m <==> Authenticator(name).Success?
      ensures forall name :: name in m ==> Authenticator(name) == Success(m[name])
    {
      creators
    }
  }

  /** The table after registering `classes` in order into `table`. */
  function RegisterAll(table: map<string, AuthenticatorClass>, classes: seq<AuthenticatorClass>): map<string, AuthenticatorClass>
  {
    if classes == [] then table
    else
      var last := classes[|classes| - 1];
      RegisterAll(table, classes[..|classes| - 1])[last.name := last]
  }

  /** The index of the last class in `classes` named `name`, if any. */
  function LastNamed(classes: seq<AuthenticatorClass>, name: string): (r: Option<nat>)
    ensures r.Some? ==> r.value < |classes| && classes[r.value].name == name
    ensures r.Some? ==> forall k :: r.value < k < |classes| ==> classes[k].name != name
    ensures r.None? ==> forall k :: 0 <= k < |classes| ==> classes[k].name != name
  {
    if classes == [] then None
    else if classes[|classes| - 1].name == name then Some(|classes| - 1)
    else LastNamed(classes[..|classes| - 1], name)
  }

  /** After registering `classes`, a name maps to the last class of that
      name; names none of them carries keep their old entry. */
  lemma {:induction false} RegisterAllLookup(table: map<string, AuthenticatorClass>, classes: seq<AuthenticatorClass>, name: string)
    ensures LastNamed(classes, name).Some? ==>
      name in RegisterAll(table, classes) && RegisterAll(table, classes)[name] == classes[LastNamed(classes, name).value]
    ensures LastNamed(classes, name).None? ==>
      (name in RegisterAll(table, classes) <==> name in table) &&
      (name in table ==> RegisterAll(table, classes)[name] == table[name])
  {
    if classes != [] {
      var init := classes[..|classes| - 1];
      RegisterAllLookup(table, init, name);
      if classes[|classes| - 1].name != name {
        assert LastNamed(classes, name) == LastNamed(init, name);
        if LastNamed(init, name).Some? {
          assert classes[LastNamed(init, name).value] == init[LastNamed(init, name).value];
        }
      }
    }
  }

  /** The registered names are the old ones and the names of `classes`. */
  lemma {:induction false} RegisterAllKeys(table: map<string, AuthenticatorClass>, classes: seq<AuthenticatorClass>)
    ensures RegisterAll(table, classes).Keys == table.Keys + set c | c in classes :: c.name
  {
    if classes != [] {
      var init := classes[..|classes| - 1];
      RegisterAllKeys(table, init);
      assert classes == init + [classes[|classes| - 1]];
    }
  }

  /** The classes the module registers, in order: three whose `NAME`s are
      given, then `MiabAuthenticator`. */
  function BuiltinClasses(cloudflare: string, route53: string, shell: string): seq<AuthenticatorClass>
  {
    [AuthenticatorClass(CloudFlare, cloudflare), AuthenticatorClass(Route53, route53),
     AuthenticatorClass(Shell, shell), AuthenticatorClass(MailInABox, Miab.NAME)]
  }

  /** The module-level `auth_factory`: a fresh factory with each built-in
      class registered in turn. */
  method CreateAuthFactory(cloudflare: string, route53: string, shell: string) returns (f: AuthenticatorFactory)
    ensures fresh(f)
    ensures f.creators == RegisterAll(map[], BuiltinClasses(cloudflare, route53, shell))
  {
    f := new AuthenticatorFactory();
    var classes := BuiltinClasses(cloudflare, route53, shell);
    for i := 0 to |classes|
      invariant f.creators == RegisterAll(map[], classes[..i])
    {
      assert classes[..i + 1][..i] == classes[..i];
      f.Register(classes[i]);
    }
    assert classes[..|classes|] == classes;
  }

  /** The module's table holds exactly the four names; Mail-in-a-Box, being
      registered last, is always found under `'mail in a box'`; and when the
      four names differ, each class is found under its own name. */
  lemma BuiltinTable(cloudflare: string, route53: string, shell: string)
    ensures var m := RegisterAll(map[], BuiltinClasses(cloudflare, route53, shell));
      && m.Keys == {cloudflare, route53, shell, Miab.NAME}
      && m[Miab.NAME] == AuthenticatorClass(MailInABox, Miab.NAME)
    ensures var m := RegisterAll(map[], BuiltinClasses(cloudflare, route53, shell));
      |{cloudflare, route53, shell, Miab.NAME}| == 4 ==>
        && m[cloudflare] == AuthenticatorClass(CloudFlare, cloudflare)
        && m[route53] == AuthenticatorClass(Route53, route53)
        && m[shell] == AuthenticatorClass(Shell, shell)
  {
    var classes := BuiltinClasses(cloudflare, route53, shell);
    RegisterAllKeys(map[], classes);
    assert (set c | c in classes :: c.name) == {cloudflare, route53, shell, Miab.NAME} by {
      assert classes[0].name == cloudflare && classes[1].name == route53;
      assert classes[2].name == shell && classes[3].name == Miab.NAME;
    }
    RegisterAllLookup(map[], classes, Miab.NAME);
    RegisterAllLookup(map[], classes, cloudflare);
    RegisterAllLookup(map[], classes, route53);
    RegisterAllLookup(map[], classes, shell);
  }

  /** Looking up a name that is not registered names it in the error. */
  lemma NotFoundNamesPlainName(name: string)
    requires forall i :: 0 <= i < |name| ==> PlainChar(name[i])
    ensures NotFoundMessage(name) == "Unable to locate '" + name + "' authenticator."
  {
    ReprOfPlain(name);
  }
}
