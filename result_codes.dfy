/**
 * LDAP result codes (section 4.1.9 of RFC 4511) and the Active Directory
 * sub-codes the wrapper names, the classification `switch` that ends both
 * verifiers, and the exception a failure raises.
 */
module ResultCodes {
  import opened Wrappers
  import opened Php

  const SUCCESS: nat := 0
  const SIZELIMIT_EXCEEDED: nat := 4
  const COMPARE_FALSE: nat := 5
  const COMPARE_TRUE: nat := 6
  const INVALID_CREDENTIALS: nat := 49
  const UNAVAILABLE: nat := 52
  // Active Directory sub-codes carried in the extended error string
  const USER_ACCOUNT_LOCKED: nat := 775

  /**
   * What the native layer reports after an operation: `ldap_errno`,
   * `ldap_error` and the `LDAP_OPT_ERROR_STRING` option.
   */
  datatype NativeStatus = NativeStatus(errno: int, error: string, errorString: string)

  /** The codes the `switch` lets through: they do not represent a failed operation. */
  predicate IsNonFailure(code: Value) {
    LooselyEquals(code, SUCCESS) || LooselyEquals(code, SIZELIMIT_EXCEEDED)
    || LooselyEquals(code, COMPARE_FALSE) || LooselyEquals(code, COMPARE_TRUE)
  }

  /**
   * What `throw new LdapException($link)` throws. The exception's constructor
   * takes a `LinkResourceInterface $res`, then passes `error()` and `errno()`
   * to `Exception::__construct(string $message, int $code)`. PHP throws a
   * TypeError in its place when the object does not implement that interface,
   * or when the code cannot be passed as an `int`.
   */
  datatype Thrown = LdapException(message: string, code: int) | TypeError

  /** How a verification ends: normally, or by throwing. */
  datatype Outcome = Completed | Threw(thrown: Thrown)

  /**
   * `new LdapException($link)`, where `isLinkResource` says whether the class of
   * `$link` implements `LinkResourceInterface`.
   */
  function NewLdapException(isLinkResource: bool, message: string, code: Value): (t: Thrown)
    ensures t.LdapException? ==> t.message == message && Some(t.code) == IntArgument(code)
    ensures t.TypeError? <==> !isLinkResource || IntArgument(code).None?
  {
    if !isLinkResource then TypeError
    else match IntArgument(code)
      case Some(n) => LdapException(message, n)
      case None => TypeError
  }

  /** The `switch ($this->code)` closing each verifier, `$this` being a link of the given kind. */
  function Classify(isLinkResource: bool, message: string, code: Value): (o: Outcome)
    ensures o == Completed <==> IsNonFailure(code)
    ensures o.Threw? ==> o.thrown == NewLdapException(isLinkResource, message, code)
  {
    if IsNonFailure(code) then Completed else Threw(NewLdapException(isLinkResource, message, code))
  }

  /**
   * An integer code completes exactly when it is one of the four non-failure
   * codes. Otherwise a link resource raises an LdapException carrying that very
   * code, and any other object makes the exception's constructor throw a TypeError.
   */
  lemma ClassifyInteger(isLinkResource: bool, message: string, n: int)
    ensures Classify(isLinkResource, message, Integer(n)) == Completed <==> n in {0, 4, 5, 6}
    ensures n !in {0, 4, 5, 6} ==>
              Classify(isLinkResource, message, Integer(n))
              == Threw(if isLinkResource then LdapException(message, n) else TypeError)
  {
  }

  /**
   * A decimal string is classified by its numeric value: `"04"` completes like 4,
   * `"775"` fails like 775.
   */
  lemma ClassifyDecimalString(isLinkResource: bool, message: string, s: string)
    requires IsDecimalString(s)
    ensures Classify(isLinkResource, message, Str(s)) == Classify(isLinkResource, message, Integer(DecimalValue(s)))
  {
  }

  /** An array never equals an integer, so it always fails, and PHP cannot build the exception. */
  lemma ClassifyList(isLinkResource: bool, message: string, items: seq<Value>)
    ensures Classify(isLinkResource, message, List(items)) == Threw(TypeError)
  {
  }
}
