/**
 * `Dreamscapes\Ldap\Core\Ldap`: the connection object's post-operation result
 * verifier and the magic `read()`, `list()` and `search()` methods.
 */
module LdapCore {
  import opened Wrappers
  import opened Php
  import opened DataCode
  import opened ResultCodes

  // Search scopes (section 4.5.1.2 of RFC 4511), named by the native function that searches with them
  const SCOPE_BASE := "ldap_read"
  const SCOPE_ONELEVEL := "ldap_list"
  const SCOPE_SUBTREE := "ldap_search"

  /** The `$scopeMap` of `__call`. */
  function ScopeFor(name: string): (scope: Option<string>)
    ensures scope.Some? <==> name in {"read", "list", "search"}
    ensures name == "read" ==> scope == Some(SCOPE_BASE)
    ensures name == "list" ==> scope == Some(SCOPE_ONELEVEL)
    ensures name == "search" ==> scope == Some(SCOPE_SUBTREE)
  {
    var scopeMap := map["read" := SCOPE_BASE, "list" := SCOPE_ONELEVEL, "search" := SCOPE_SUBTREE];
    if name in scopeMap then Some(scopeMap[name]) else None
  }

  /** The error `trigger_error` reports for a method name outside the scope map. */
  function UndefinedMethod(name: string): string {
    "Call to undefined method Dreamscapes\\Ldap\\Core\\Ldap::" + name + "()"
  }

  /**
   * The argument list handed to `ldapSearch`: the caller's first three
   * arguments (null where missing), then the scope, then the caller's
   * remaining arguments in order.
   */
  predicate IsForwardedList(args: seq<Value>, scope: string, forwarded: seq<Value>) {
    |forwarded| == (if |args| < 3 then 3 else |args|) + 1
    && (forall i :: 0 <= i < 3 ==> forwarded[i] == if i < |args| then args[i] else Null)
    && forwarded[3] == Str(scope)
    && (forall i :: 3 <= i < |args| ==> forwarded[i + 1] == args[i])
  }

  /** `$this->code` after verification: the sub-code scrape applies to code 49 only. */
  function StoredCode(errno: int, errorString: string): (code: Value)
  {
    if errno == INVALID_CREDENTIALS then
      match ExtractDataCode(errorString)
      case Some(digits) => Str(digits)
      case None => Integer(errno)
    else Integer(errno)
  }

  /**
   * `class Ldap` implements no interface, so `new LdapException($this)` fails
   * the constructor's `LinkResourceInterface` type check.
   */
  const LdapIsLinkResource := false

  /** How `verifyOperation` ends for a given native status. */
  function Verified(native: NativeStatus): Outcome {
    Classify(LdapIsLinkResource, native.error, StoredCode(native.errno, native.errorString))
  }

  class Ldap {
    /** The status code of the last operation, null before the first one. */
    var code: Value
    /** The status message of the last operation, null before the first one. */
    var message: Value

    constructor ()
      ensures code == Null && message == Null
    {
      code := Null;
      message := Null;
    }

    /** `error()` */
    function Error(): (m: Value)
      reads this
      ensures m == message
    {
      message
    }

    /** `errno()` */
    function Errno(): (c: Value)
      reads this
      ensures c == code
    {
      code
    }

    /**
     * `verifyOperation()`: stores the native code and message, replaces an
     * invalid-credentials code by the Active Directory sub-code when the
     * extended error string carries one, then completes or throws an
     * exception built from `error()` and `errno()`.
     */
    method VerifyOperation(native: NativeStatus) returns (outcome: Outcome)
      modifies this
      ensures Error() == Str(native.error)
      ensures Errno() == StoredCode(native.errno, native.errorString)
      ensures outcome == Classify(LdapIsLinkResource, native.error, Errno())
      ensures outcome == Completed <==> IsNonFailure(Errno())
      ensures outcome != Completed ==> outcome == Threw(TypeError)
    {
      code := Integer(native.errno);
      message := Str(native.error);
      if code == Integer(INVALID_CREDENTIALS) {
        var errorString := native.errorString;
        var matches := ExtractDataCode(errorString);
        if matches.Some? {
          code := Str(matches.value);
        }
      }
      if IsNonFailure(code) {
        outcome := Completed;
      } else {
        outcome := Threw(NewLdapException(LdapIsLinkResource, native.error, code));
      }
    }

    /**
     * `__call($method, $args)`: the magic `read`, `list` and `search` methods.
     * Returns the argument list forwarded to `ldapSearch`, or the error raised
     * for any other method name.
     */
    method Call(name: string, args: seq<Value>) returns (r: Result<seq<Value>, string>)
      ensures r.Failure? <==> name !in {"read", "list", "search"}
      ensures r.Failure? ==> r.error == UndefinedMethod(name)
      ensures name == "read" ==> r.Success? && IsForwardedList(args, SCOPE_BASE, r.value)
      ensures name == "list" ==> r.Success? && IsForwardedList(args, SCOPE_ONELEVEL, r.value)
      ensures name == "search" ==> r.Success? && IsForwardedList(args, SCOPE_SUBTREE, r.value)
    {
      var scope := ScopeFor(name);
      if scope.None? {
        return Failure(UndefinedMethod(name));
      }
      var forwarded := args;
      forwarded := ArrayPad(forwarded, 3, Null);
      forwarded := ArraySplice(forwarded, 3, 0, [Str(scope.value)]);
      return Success(forwarded);
    }
  }

  /** Only code 49 is scraped: every other native code is stored and classified as it is. */
  lemma OtherCodesUnchanged(native: NativeStatus)
    requires native.errno != INVALID_CREDENTIALS
    ensures StoredCode(native.errno, native.errorString) == Integer(native.errno)
    ensures Verified(native) == Completed <==> native.errno in {0, 4, 5, 6}
    ensures native.errno !in {0, 4, 5, 6} ==> Verified(native) == Threw(TypeError)
  {
    ClassifyInteger(LdapIsLinkResource, native.error, native.errno);
  }

  /**
   * For code 49 the stored code changes exactly when the extended error string
   * holds `data ` followed by two digits; without one `errno()` stays 49 and the
   * operation fails.
   */
  lemma InvalidCredentialsScrape(error: string, errorString: string)
    ensures StoredCode(INVALID_CREDENTIALS, errorString) != Integer(INVALID_CREDENTIALS)
            <==> exists p :: MatchesAt(errorString, p)
    ensures (forall p :: !MatchesAt(errorString, p)) ==>
              StoredCode(INVALID_CREDENTIALS, errorString) == Integer(INVALID_CREDENTIALS)
              && Verified(NativeStatus(INVALID_CREDENTIALS, error, errorString)) == Threw(TypeError)
  {
  }

  /**
   * With a sub-code, `errno()` is the sub-code's text, and code 49 is classified
   * by the sub-code's numeric value.
   */
  lemma SubCodeClassified(error: string, errorString: string)
    requires ExtractDataCode(errorString).Some?
    ensures var digits := ExtractDataCode(errorString).value;
            var n := DecimalValue(digits);
            StoredCode(INVALID_CREDENTIALS, errorString) == Str(digits)
            && IntArgument(Str(digits)) == Some(n)
            && Verified(NativeStatus(INVALID_CREDENTIALS, error, errorString))
               == if n in {0, 4, 5, 6} then Completed else Threw(TypeError)
  {
    var digits := ExtractDataCode(errorString).value;
    ClassifyDecimalString(LdapIsLinkResource, error, digits);
    ClassifyInteger(LdapIsLinkResource, error, DecimalValue(digits));
  }

  /**
   * `"<comment>data 775, vece"` stores the account-locked code `"775"` and
   * fails, for any comment without `data ` (such as
   * `80090308: LdapErr: DSID-0C090334, comment: AcceptSecurityContext error, `).
   */
  lemma AccountLockedExample(error: string, comment: string)
    requires !Contains(comment, Marker)
    ensures StoredCode(INVALID_CREDENTIALS, comment + "data 775, vece") == Str("775")
    ensures IntArgument(Str("775")) == Some(USER_ACCOUNT_LOCKED)
    ensures Verified(NativeStatus(INVALID_CREDENTIALS, error, comment + "data 775, vece")) == Threw(TypeError)
  {
    assert "data 775, vece" == Marker + "775" + ", vece";
    SubCodeAfterComment(comment, "775", ", vece");
    SubCodeClassified(error, comment + "data 775, vece");
    DecimalValueOfDigits("775");
  }

  /** `"<comment>data 52e, v893"` is matched as `"52"` (unavailable), not left as 49. */
  lemma HexSubCodeExample(error: string, comment: string)
    requires !Contains(comment, Marker)
    ensures StoredCode(INVALID_CREDENTIALS, comment + "data 52e, v893") == Str("52")
    ensures IntArgument(Str("52")) == Some(UNAVAILABLE)
    ensures Verified(NativeStatus(INVALID_CREDENTIALS, error, comment + "data 52e, v893")) == Threw(TypeError)
  {
    assert "data 52e, v893" == Marker + "52" + "e, v893";
    SubCodeAfterComment(comment, "52", "e, v893");
    SubCodeClassified(error, comment + "data 52e, v893");
    DecimalValueOfDigits("52");
  }

  /** A failed bind whose extended error string ends in `data 00` completes as if it had succeeded. */
  lemma ZeroSubCodeCompletes(error: string, comment: string)
    requires !Contains(comment, Marker)
    ensures Verified(NativeStatus(INVALID_CREDENTIALS, error, comment + "data 00")) == Completed
  {
    assert "data 00" == Marker + "00" + "";
    SubCodeAfterComment(comment, "00", "");
    SubCodeClassified(error, comment + "data 00");
    DecimalValueOfDigits("00");
  }
}
