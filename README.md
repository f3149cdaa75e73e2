# Dreamscapes/Ldap-Core: result verification and scope dispatch

Ldap-Core wraps PHP's native `ldap_*` functions in two connection classes:

- `Ldap`, the current one;
- `LinkResource`, the legacy one.

Almost every method forwards its arguments to one native call. Two pieces of real decision logic remain, and this project models and proves them. The native layer's error code, its `ldap_error` message and its extended error string (`LDAP_OPT_ERROR_STRING`) are treated as plain inputs (`ResultCodes.NativeStatus`).

- **Result verification** (`verifyOperation` in both classes). It runs after every operation. It stores the native code and message on the connection. For code 49 (invalid credentials) it tries to recover an Active Directory sub-code from the extended error string. It then lets the codes 0, 4, 5 and 6 through: success, sizeLimitExceeded, compareFalse and compareTrue, the result codes of section 4.1.9 of RFC 4511. Every other code throws `new LdapException($this)`.
  - `Ldap` scrapes with `preg_match('/(?<=data )[0-9]{2,3}/')`.
  - `LinkResource` checks for `AcceptSecurityContext`, ignoring case, and then splits the string. It cuts on `", "`, takes the piece before the last, and cuts that piece on single spaces.
- **Scope dispatch** (`Ldap::__call`). It maps the magic methods `read`, `list` and `search` to the base, one-level and subtree search scopes of section 4.5.1.2 of RFC 4511. The scopes are named by the native functions `ldap_read`, `ldap_list` and `ldap_search`. Any other name is rejected. The argument list is padded to three entries with nulls, and the scope is spliced in at index 3.

The modules:

- `Php` (php.dfy): the PHP values the code handles and the built-ins it relies on.
  - A `switch`'s loose `==` against an integer.
  - The coercion of a value passed to an `int` parameter.
  - The built-ins `explode`/`implode`, `stripos`, `array_pad` and `array_splice`.
- `DataCode` (data_code.dfy): the regular-expression scrape. The pattern's meaning is given as a predicate, `MatchesAt`. The leftmost-match search is proved against it.
- `ResultCodes` (result_codes.dfy): the result codes, the closing `switch`, and what `new LdapException($this)` throws. That depends on whether the connection's class implements `LinkResourceInterface`, so the classification takes that as a flag.
- `LdapCore` (ldap.dfy): class `Ldap` with its `code` and `message` fields, `VerifyOperation` and `Call`.
- `LinkResourceCore` (link_resource.dfy): class `LinkResource` and its `VerifyOperation`. It walks the exploded array's internal pointer with `end()`/`prev()`, as the source does.
- `Wrappers` (wrappers.dfy): Option and Result.

Both classes keep `code` and `message` as fields. They start as null, and each `VerifyOperation` reassigns them. Its postcondition gives the new fields and the outcome as functions of the native status alone (`StoredCode`/`Verified`, `LegacyStoredCode`/`LegacyVerified`). Separate lemmas prove the properties of those functions. Because the postcondition does not depend on the previous fields, verifying twice against the same native status gives the same classification.

Behaviour of the code as written, which the model follows:

- `Ldap`: the class implements no interface (Ldap.php:89), while `LdapException`'s constructor requires a `LinkResourceInterface $res` (LdapException.php:32). So `throw new LdapException($this)` never builds the exception: every failed `Ldap` operation throws a TypeError instead. `errno()` and `error()` still hold the stored code and message (`OtherCodesUnchanged`, `VerifyOperation`).
- `Ldap`: the comment at Ldap.php:757-758 says a sub-code such as `52e` is not matched and 49 is kept. The pattern does match `52`, so `errno()` becomes `"52"` (unavailable), and the operation fails with the TypeError above (`HexSubCodeExample`).
- `Ldap`: several `data NN` occurrences are not treated as ambiguous. `preg_match` takes the leftmost, and the greedy `{2,3}` takes a third digit when one follows (`LeftmostGreedyMatch`).
- `Ldap`: the matched text is stored as a string, and the `switch` compares it loosely, so by its numeric value. Code 49 with `data 00`, `data 04`, `data 005` or `data 006` in the extended error string therefore completes as if the operation had not failed (`ZeroSubCodeCompletes`).
- `LinkResource`: `$this->code` becomes an array of words at LinkResource.php:604. The strict `=== '52e'` test can then never hold, and an array equals none of 0, 4, 5 or 6. So code 49 with `AcceptSecurityContext` always fails. `LdapException` then passes `errno()`, that array, as the `int $code` argument of `Exception::__construct`. PHP refuses this, so what is thrown is a TypeError, not an `LdapException` (`LegacyInvalidCredentialsAlwaysFails`). Without the marker, code 49 fails with 49.

## Model

| member | source | states |
|---|---|---|
| `LdapCore.Ldap.VerifyOperation` | Dreamscapes/Ldap/Core/Ldap.php:743-779 | Afterwards `error()` is the native message, and `errno()` is the native code with the scrape applied (the code 49 case only). The operation completes iff that code loosely equals 0, 4, 5 or 6. Otherwise what is thrown is a TypeError, because `Ldap` is not a `LinkResourceInterface`. |
| `LdapCore.Ldap.constructor` | Dreamscapes/Ldap/Core/Ldap.php:188-196 | Before any operation, `code` and `message` are null. |
| `LdapCore.Ldap.Error` | Dreamscapes/Ldap/Core/Ldap.php:396-399 | `error()` returns the stored message: null before any operation, the native message after `VerifyOperation`. |
| `LdapCore.Ldap.Errno` | Dreamscapes/Ldap/Core/Ldap.php:406-409 | `errno()` returns the stored code: null before any operation, the (possibly scraped) code after `VerifyOperation`. |
| `LdapCore.Ldap.Call` | Dreamscapes/Ldap/Core/Ldap.php:709-735 | Fails exactly for names other than `read`/`list`/`search`, with the "Call to undefined method" message. Otherwise the forwarded list has length max(n,3)+1. It holds the first three arguments (null where missing), then the name's scope, then the remaining arguments shifted by one. |
| `LdapCore.ScopeFor` | Dreamscapes/Ldap/Core/Ldap.php:711-715 | Defined exactly for `read`, `list` and `search`, giving `ldap_read`, `ldap_list` and `ldap_search`. |
| `LdapCore.OtherCodesUnchanged` | Dreamscapes/Ldap/Core/Ldap.php:745-778 | A native code other than 49 is stored unchanged. It completes iff it is 0, 4, 5 or 6, and otherwise throws a TypeError, since `new LdapException($this)` refuses an `Ldap`. |
| `LdapCore.InvalidCredentialsScrape` | Dreamscapes/Ldap/Core/Ldap.php:751-765 | For code 49 the stored code changes iff the extended error string has `data ` followed by two digits. Without such an occurrence `errno()` stays 49 and the operation throws a TypeError. |
| `LdapCore.SubCodeClassified` | Dreamscapes/Ldap/Core/Ldap.php:762-778 | With a matched sub-code, `errno()` is the sub-code's text, and PHP reads it as its numeric value. Code 49 then completes iff that value is 0, 4, 5 or 6, and otherwise throws a TypeError. |
| `LdapCore.AccountLockedExample` | Dreamscapes/Ldap/Core/Ldap.php:754-756 | `...data 775, vece` after a comment without `data ` stores `"775"`, read as 775 (account locked), and the operation throws a TypeError. |
| `LdapCore.HexSubCodeExample` | Dreamscapes/Ldap/Core/Ldap.php:757-759 | `...data 52e, v893` is matched as `"52"`, read as 52 (unavailable), rather than keeping 49. The operation throws a TypeError. |
| `LdapCore.ZeroSubCodeCompletes` | Dreamscapes/Ldap/Core/Ldap.php:759-774 | Code 49 with `...data 00` completes normally, since `"00"` loosely equals SUCCESS. |
| `DataCode.FirstMatchFrom` | Dreamscapes/Ldap/Core/Ldap.php:759 | Returns the leftmost position at or after `from` where the pattern matches, with no match before it, or None when there is no match at all from `from` on. |
| `DataCode.ExtractDataCode` | Dreamscapes/Ldap/Core/Ldap.php:759-764 | None iff the pattern matches nowhere. Otherwise the result is a decimal string of two or three digits. |
| `DataCode.LeftmostGreedyMatch` | Dreamscapes/Ldap/Core/Ldap.php:759 | At the leftmost match position, the result is three digits when a third digit follows and two otherwise. |
| `DataCode.MatchAfterPrefix` | Dreamscapes/Ldap/Core/Ldap.php:757-759 | After a prefix with no match, `data ` and two or three digits yield those digits, whatever follows: a letter after two digits, anything after three. |
| `DataCode.SubCodeAfterComment` | Dreamscapes/Ldap/Core/Ldap.php:754-759 | After a comment without `data ` (the real Active Directory text included), `data ` and two or three digits yield those digits. |
| `ResultCodes.NewLdapException` | Dreamscapes/Ldap/LdapException.php:32-35 | The exception carries the message and the code as PHP passes it to `int $code`. It is a TypeError exactly when the object is not a `LinkResourceInterface` or the code cannot be passed as an int. |
| `ResultCodes.Classify` | Dreamscapes/Ldap/Core/Ldap.php:767-778 | The `switch` completes exactly when the code loosely equals one of 0, 4, 5 and 6; otherwise it throws what `new LdapException($this)` yields for that code and that kind of object. |
| `ResultCodes.ClassifyInteger` | Dreamscapes/Ldap/Core/Ldap.php:767-778 | An integer code completes iff it is 0, 4, 5 or 6. Any other integer code throws an LdapException carrying it when the object is a `LinkResourceInterface`, and a TypeError otherwise. |
| `ResultCodes.ClassifyDecimalString` | Dreamscapes/Ldap/Core/Ldap.php:763-778 | A stored digit string is classified and reported like its numeric value (`"04"` like 4). |
| `ResultCodes.ClassifyList` | Dreamscapes/Ldap/Core/LinkResource.php:615-626 | An array code always fails, and the exception cannot be built from it (TypeError). |
| `Php.LooselyEquals` | Dreamscapes/Ldap/Core/Ldap.php:767-771 | The `switch`'s `==` against an integer: an array, and a string that is not a decimal string, equal no non-negative integer. |
| `Php.LeadingZerosIgnored` | Dreamscapes/Ldap/Core/Ldap.php:767-771 | A digit string with a leading zero compares equal to the same integers as without it (`"04"` like `"4"`). |
| `Php.IntArgument` | Dreamscapes/Ldap/LdapException.php:34 | Refuses exactly arrays and non-decimal strings. Every non-boolean value loosely equal to k is passed as k. |
| `Php.ArrayPad` | Dreamscapes/Ldap/Core/Ldap.php:729 | Keeps the list as a prefix and pads on the right with the fill value up to the size. |
| `Php.ArraySplice` | Dreamscapes/Ldap/Core/Ldap.php:731 | Keeps the prefix before the offset, places the replacement there, and keeps the rest after the removed part. |
| `Php.StrIPos` | Dreamscapes/Ldap/Core/LinkResource.php:599 | Found iff the lower-cased needle occurs in the lower-cased haystack. |
| `Php.Explode` | Dreamscapes/Ldap/Core/LinkResource.php:600 | `explode` always yields at least one piece. What the pieces are is stated by `ImplodeExplode` (they join back to the string), `ExplodePiecesFree` (none holds the separator) and `ExplodeConcat`. |
| `Php.ExplodePiecesFree` | Dreamscapes/Ldap/Core/LinkResource.php:600 | No piece of an exploded string contains the separator. |
| `Php.ImplodeExplode` | Dreamscapes/Ldap/Core/LinkResource.php:600 | Imploding the pieces with the same separator gives back the exploded string. |
| `Php.ExplodeWithout` | Dreamscapes/Ldap/Core/LinkResource.php:600-602 | A string without the separator explodes into itself alone. |
| `Php.ExplodeConcat` | Dreamscapes/Ldap/Core/LinkResource.php:600 | For a separator whose first character does not recur in it (`", "`, `" "`), exploding `a + separator + b` gives the pieces of `a` followed by the pieces of `b`. |
| `LinkResourceCore.LinkResource.VerifyOperation` | Dreamscapes/Ldap/Core/LinkResource.php:590-627 | Afterwards `error()` is the native message, and `errno()` is the native code or, for code 49 with the marker, the word list. The outcome is the `switch` on that code, with the exception built from `error()` and `errno()`. |
| `LinkResourceCore.LinkResource.Error` | Dreamscapes/Ldap/Core/LinkResource.php:309-312 | `error()` returns the stored message: null before any operation, the native message after `VerifyOperation`. |
| `LinkResourceCore.LinkResource.Errno` | Dreamscapes/Ldap/Core/LinkResource.php:319-322 | `errno()` returns the stored code: null before any operation, the native code or the word list after `VerifyOperation`. |
| `LinkResourceCore.LinkResource.constructor` | Dreamscapes/Ldap/Core/LinkResource.php:125-133 | Before any operation, `code` and `message` are null. |
| `LinkResourceCore.PieceBeforeLast` | Dreamscapes/Ldap/Core/LinkResource.php:601-602 | `prev()` after `end()` yields a piece iff there are at least two pieces (otherwise `false`), and that piece is the one before the last. |
| `LinkResourceCore.Words` | Dreamscapes/Ldap/Core/LinkResource.php:604 | The stored code is an array with one string per word, the i-th entry being the i-th word. |
| `LinkResourceCore.LegacyOtherCodesUnchanged` | Dreamscapes/Ldap/Core/LinkResource.php:592-626 | A native code other than 49 is stored unchanged. It completes iff it is 0, 4, 5 or 6, and otherwise throws an LdapException with that code. |
| `LinkResourceCore.LegacyInvalidCredentialsAlwaysFails` | Dreamscapes/Ldap/Core/LinkResource.php:597-626 | Code 49 never completes. Without `AcceptSecurityContext` it throws with 49. With it, the code is an array and a TypeError is thrown. |
| `LinkResourceCore.LegacySinglePiece` | Dreamscapes/Ldap/Core/LinkResource.php:600-604 | With the marker but no `", "`, the stored code is `[""]`. |
| `LinkResourceCore.LegacyPieceBeforeLast` | Dreamscapes/Ldap/Core/LinkResource.php:600-604 | With the marker, an error string `<head>, <middle>, <tail>` whose middle and tail hold no comma stores the words of the middle, whatever the head holds. |
| `LinkResourceCore.LegacyWordsExample` | Dreamscapes/Ldap/Core/LinkResource.php:600-604 | `<head>, data 775, <tail>` stores the words `["data", "775"]`, for any head and a tail without commas. |

## Left out

- Every operation method (`connect`, `bind`, `saslBind`, `add`, `delete`, `compare`, the `mod*` family, `modifyBatch`, `rename`, `setOption`, `getOption`, `startTls`, `unbind`, `pagedResult`, `setRebindProcedure`): each is one native call followed by `verifyOperation`. The native call's effect is the `NativeStatus` given to `VerifyOperation`.
- `ldapSearch`/`search` and the variable-function call `$scope(...)`: they are native searches. `Call` returns the argument list that `__call` forwards to `ldapSearch`.
- The static helpers `dnToUfn`, `errToStr`, `explodeDn` and `escape`: thin wrappers over the native library.
- `Result`, `ResultResource` and the two interfaces: pass-throughs and declarations only.
- The `define` fallbacks and the `OPT_*`/`MODIFY_BATCH_*` constants, which alias native constants. Of the response codes, only the ones the classification and the examples use are named.
- `Call` assumes PHP's default error handler, under which `trigger_error(E_USER_ERROR)` ends the script; it returns that as a `Failure` carrying the message. A user error handler that returns lets `__call` go on (Ldap.php:729-734): `$scopeMap[$method]` is then null, `array_splice` inserts nothing, and `ldapSearch` runs on the padded arguments. That path is not modelled.
- Error suppression with `@`, `__destruct` and resource freeing: native behaviour.
- `getOption(OPT_ERROR_STRING)` can return null when the native library has no extended error. The model takes the extended error string as a string, and PHP reads null as the empty string in these calls.
- `Php.LooselyEquals`: compares strings numerically only when they are pure ASCII digit strings, the only strings that reach the `switch`. PHP's wider numeric-string forms (signs, spaces, decimals, exponents) are not modelled.
- `Php.IntArgument`: refuses every non-decimal string, where PHP 8 accepts other numeric and leading-numeric strings. Such strings never reach it here.
- `Php.StrIPos`: folds ASCII case only. PHP versions before 8.2 fold by the current locale.
- `ResultCodes.NewLdapException`: records a refused code as a TypeError. That is PHP 8's behaviour; PHP 7 throws an `Error` ("Wrong parameters for Exception") at the same point.
