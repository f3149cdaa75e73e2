/**
 * `Dreamscapes\Ldap\Core\LinkResource`: the legacy connection object's
 * post-operation result verifier. Its Active Directory scrape cuts the
 * extended error string at `", "`, takes the piece before the last one and
 * stores that piece cut at single spaces, a list of words, as the code.
 */
module LinkResourceCore {
  import opened Wrappers
  import opened Php
  import opened ResultCodes

  const SecurityContextMarker := "AcceptSecurityContext"

  /** `class LinkResource implements LinkResourceInterface`, so `new LdapException($this)` passes the type check. */
  const LinkResourceIsLinkResource := true

  /** The piece `prev()` yields after `end()`: the one before the last, or `false` when there is only one. */
  function PieceBeforeLast(pieces: seq<string>): (r: Option<string>)
    requires |pieces| >= 1
    ensures r.Some? <==> |pieces| >= 2
    ensures r.Some? ==> r.value == pieces[|pieces| - 2]
  {
    if |pieces| >= 2 then Some(pieces[|pieces| - 2]) else None
  }

  /** A list of words as a PHP array of strings. */
  function Words(words: seq<string>): (r: Value)
    ensures r.List? && |r.items| == |words|
    ensures forall i :: 0 <= i < |words| ==> r.items[i] == Str(words[i])
  {
    List(seq(|words|, i requires 0 <= i < |words| => Str(words[i])))
  }

  /**
   * `$this->code` after verification: for code 49 with `AcceptSecurityContext`
   * anywhere in the extended error string (ignoring case), the words of the
   * piece before the last, `false` standing for the empty string.
   */
  function LegacyStoredCode(errno: int, errorString: string): Value {
    if errno == INVALID_CREDENTIALS && StrIPos(errorString, SecurityContextMarker).Some? then
      var piece := match PieceBeforeLast(Explode(", ", errorString))
        case Some(p) => p
        case None => "";
      Words(Explode(" ", piece))
    else Integer(errno)
  }

  /** How the legacy `verifyOperation` ends for a given native status. */
  function LegacyVerified(native: NativeStatus): Outcome {
    Classify(LinkResourceIsLinkResource, native.error, LegacyStoredCode(native.errno, native.errorString))
  }

  class LinkResource {
    /** The status code of the last operation, null before the first one. */
    var code: Value
    /** The status message of the last operation, null before the first one. */
    var message: Value

    constructor ()
      ensures code == Null && message == Null
    {
      code := Null;
      message := Null;
    }

    /** `error()` */
    function Error(): (m: Value)
      reads this
      ensures m == message
    {
      message
    }

    /** `errno()` */
    function Errno(): (c: Value)
      reads this
      ensures c == code
    {
      code
    }

    /**
     * `verifyOperation()`: stores the native code and message, runs the
     * `AcceptSecurityContext` scrape for code 49, then completes or throws.
     */
    method VerifyOperation(native: NativeStatus) returns (outcome: Outcome)
      modifies this
      ensures Error() == Str(native.error)
      ensures Errno() == LegacyStoredCode(native.errno, native.errorString)
      ensures outcome == Classify(LinkResourceIsLinkResource, native.error, Errno())
    {
      code := Integer(native.errno);
      message := Str(native.error);
      if code == Integer(INVALID_CREDENTIALS) {
        var errorString := native.errorString;
        if StrIPos(errorString, SecurityContextMarker).Some? {
          var parts := Explode(", ", errorString);
          // end($parts), then prev($parts): the internal pointer steps back from the last piece
          var pointer := |parts| - 1;
          pointer := pointer - 1;
          var previous := if pointer >= 0 then Some(parts[pointer]) else None;
          var piece := match previous
            case Some(p) => p
            case None => "";
          code := Words(Explode(" ", piece));
          // the '52e' substitution compares the list with a string, strictly
          code := if code == Str("52e") then Integer(INVALID_CREDENTIALS) else code;
        }
      }
      if IsNonFailure(code) {
        outcome := Completed;
      } else {
        outcome := Threw(NewLdapException(LinkResourceIsLinkResource, native.error, code));
      }
    }
  }

  /** Codes other than 49 are stored and classified as they are. */
  lemma LegacyOtherCodesUnchanged(native: NativeStatus)
    requires native.errno != INVALID_CREDENTIALS
    ensures LegacyStoredCode(native.errno, native.errorString) == Integer(native.errno)
    ensures LegacyVerified(native) == Completed <==> native.errno in {0, 4, 5, 6}
    ensures native.errno !in {0, 4, 5, 6} ==> LegacyVerified(native) == Threw(LdapException(native.error, native.errno))
  {
    ClassifyInteger(LinkResourceIsLinkResource, native.error, native.errno);
  }

  /**
   * Code 49 always fails. Without the marker it fails with 49; with it, the
   * stored code is a list, which never equals `'52e'` nor a non-failure code,
   * and which PHP cannot hand to the exception as its `int` code.
   */
  lemma LegacyInvalidCredentialsAlwaysFails(error: string, errorString: string)
    ensures StrIPos(errorString, SecurityContextMarker).None? ==>
              LegacyVerified(NativeStatus(INVALID_CREDENTIALS, error, errorString))
              == Threw(LdapException(error, INVALID_CREDENTIALS))
    ensures StrIPos(errorString, SecurityContextMarker).Some? ==>
              LegacyStoredCode(INVALID_CREDENTIALS, errorString).List?
              && LegacyVerified(NativeStatus(INVALID_CREDENTIALS, error, errorString)) == Threw(TypeError)
  {
    var code := LegacyStoredCode(INVALID_CREDENTIALS, errorString);
    if code.List? {
      ClassifyList(LinkResourceIsLinkResource, error, code.items);
    }
  }

  /** With the marker but no `", "`, `prev()` yields `false` and the code becomes `[""]`. */
  lemma LegacySinglePiece(errorString: string)
    requires StrIPos(errorString, SecurityContextMarker).Some?
    requires !Contains(errorString, ", ")
    ensures LegacyStoredCode(INVALID_CREDENTIALS, errorString) == List([Str("")])
  {
    ExplodeWithout(", ", errorString);
    ExplodeWithout(" ", "");
  }

  /**
   * Whatever comes first, an error string ending in `", <middle>, <tail>"`, with
   * a middle and a tail without commas, stores the words of the middle piece.
   */
  lemma LegacyPieceBeforeLast(head: string, middle: string, tail: string)
    requires NoneOf(middle, ',') && NoneOf(tail, ',')
    requires StrIPos(head + ", " + middle + ", " + tail, SecurityContextMarker).Some?
    ensures LegacyStoredCode(INVALID_CREDENTIALS, head + ", " + middle + ", " + tail)
            == Words(Explode(" ", middle))
  {
    var errorString := head + ", " + middle + ", " + tail;
    var rest := middle + ", " + tail;
    assert errorString == head + ", " + rest by {
      AppendAssoc(head + ", " + middle, ", ", tail);
      AppendAssoc(head + ", ", middle, ", " + tail);
      AppendAssoc(middle, ", ", tail);
    }
    assert Explode(", ", rest) == [middle, tail] by {
      ExplodeConcat(", ", middle, tail);
      NoFirstCharNoOccurrence(", ", middle);
      NoFirstCharNoOccurrence(", ", tail);
      ExplodeWithout(", ", middle);
      ExplodeWithout(", ", tail);
    }
    ExplodeConcat(", ", head, rest);
    var pieces := Explode(", ", errorString);
    assert pieces[|pieces| - 2] == middle;
  }

  /** `explode(' ', "data <sub-code>")` for a sub-code without spaces. */
  lemma DataWords(subCode: string)
    requires NoneOf(subCode, ' ')
    ensures Explode(" ", "data " + subCode) == ["data", subCode]
  {
    ExplodeAfterFree(" ", "data", subCode);
    assert "data" + " " + subCode == "data " + subCode;
    ExplodeWithout(" ", subCode);
  }

  /**
   * A full Active Directory message
   * `"<head>, data 775, <tail>"` (the head being, for instance,
   * `80090308: LdapErr: DSID-0C090334, comment: AcceptSecurityContext error`)
   * stores the words `["data", "775"]`, whatever the head holds, for a tail
   * and a sub-code without commas and a sub-code without spaces.
   */
  lemma LegacyWordsExample(head: string, subCode: string, tail: string)
    requires NoneOf(tail, ',')
    requires NoneOf(subCode, ',') && NoneOf(subCode, ' ')
    requires StrIPos(head + ", data " + subCode + ", " + tail, SecurityContextMarker).Some?
    ensures LegacyStoredCode(INVALID_CREDENTIALS, head + ", data " + subCode + ", " + tail)
            == List([Str("data"), Str(subCode)])
  {
    var middle := "data " + subCode;
    assert NoneOf(middle, ',');
    assert head + ", data " + subCode + ", " + tail == head + ", " + middle + ", " + tail;
    LegacyPieceBeforeLast(head, middle, tail);
    DataWords(subCode);
  }
}
