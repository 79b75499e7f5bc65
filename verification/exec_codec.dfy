/** The response body of the exec channel: written by the guest's init as
    `rc=<n>` newline output, read by `parseResponse`. */
module ExecCodec {
  import opened Results
  import opened ByteStrings
  import opened Decimal

  datatype ExecResult = ExecResult(exitCode: int, stdout: string)

  datatype ParseError = Malformed | BadExitCode

  /** `{ printf 'rc=%s\n' "$rc"; printf '%s' "$out"; }`. */
  function Response(rc: nat, out: string): string {
    "rc=" + Dec(rc) + "\n" + out
  }

  function ParseResponse(b: string): Result<ExecResult, ParseError> {
    var i := IndexOf(b, '\n');
    if i == |b| || !HasPrefix(b[..i], "rc=") then Err(Malformed)
    else
      match Atoi(TrimSpace(b[3..i]))
      case None => Err(BadExitCode)
      case Some(code) => Ok(ExecResult(code, b[i + 1..]))
  }

  lemma ResponseHeader(rc: nat)
    ensures '\n' !in "rc=" + Dec(rc)
    ensures TrimSpace(Dec(rc)) == Dec(rc)
  {
    assert Dec(rc)[0] in Dec(rc) && Dec(rc)[|Dec(rc)| - 1] in Dec(rc);
    TrimPlain(Dec(rc));
  }

  /** Parsing a written response gives back its exit code and output, whatever the
      output holds. */
  lemma ParseOfResponse(rc: nat, out: string)
    requires rc <= MaxInt64
    ensures ParseResponse(Response(rc, out)) == Ok(ExecResult(rc, out))
  {
    var head := "rc=" + Dec(rc);
    var b := Response(rc, out);
    ResponseHeader(rc);
    assert b == head + ['\n'] + out;
    IndexOfPrefix(head, '\n', out);
    assert b[..|head|] == head && b[3..|head|] == Dec(rc) && b[|head| + 1..] == out;
    AtoiOfDec(rc);
  }

  /** A decimal with an optional sign that fits 64 bits. */
  predicate IntegerText(s: string, code: int) {
    var signed := s != "" && (s[0] == '+' || s[0] == '-');
    var digits := if signed then s[1..] else s;
    && digits != "" && AllDigits(digits) && -MaxInt64 - 1 <= code <= MaxInt64
    && (if s[0] == '-' then code + Value(digits) == 0 else code == Value(digits))
  }

  lemma AtoiIsText(s: string, code: int)
    ensures Atoi(s) == Some(code) <==> IntegerText(s, code)
  {
    hide Value;
  }

  /** A body is accepted if and only if it is a first line, `rc=` and a number with white
      space around it, and after its newline the output. */
  lemma ParseResponseIff(b: string, code: int, out: string)
    ensures ParseResponse(b) == Ok(ExecResult(code, out)) <==>
            exists num :: '\n' !in num && b == "rc=" + num + "\n" + out && IntegerText(TrimSpace(num), code)
  {
    hide TrimSpace, IntegerText;
    var i := IndexOf(b, '\n');
    if ParseResponse(b) == Ok(ExecResult(code, out)) {
      var num := b[3..i];
      AtoiIsText(TrimSpace(num), code);
      assert b[..i] == "rc=" + num && b == b[..i] + "\n" + b[i + 1..];
      assert '\n' !in num;
    }
    forall num | '\n' !in num && b == "rc=" + num + "\n" + out && IntegerText(TrimSpace(num), code)
      ensures ParseResponse(b) == Ok(ExecResult(code, out))
    {
      FirstLine(b, num, out);
      AtoiIsText(TrimSpace(num), code);
    }
  }

  lemma FirstLine(b: string, num: string, out: string)
    requires '\n' !in num && b == "rc=" + num + "\n" + out
    ensures IndexOf(b, '\n') == |num| + 3
    ensures b[..|num| + 3] == "rc=" + num && b[3..|num| + 3] == num && b[|num| + 4..] == out
    ensures HasPrefix(b[..|num| + 3], "rc=")
  {
    assert '\n' !in "rc=";
    assert b == ("rc=" + num) + ['\n'] + out;
    IndexOfPrefix("rc=" + num, '\n', out);
  }

  /** Why the guest renames a finished file into place: a reader of the first `k`
      bytes gets an error or a silently shortened output, and only the whole file
      gives the whole result. */
  lemma ParseOfTruncated(rc: nat, out: string, k: nat)
    requires rc <= MaxInt64 && k <= |Response(rc, out)|
    ensures var head := |Dec(rc)| + 4;
            ParseResponse(Response(rc, out)[..k]) ==
            if k < head then Err(Malformed) else Ok(ExecResult(rc, out[..k - head]))
    ensures ParseResponse(Response(rc, out)[..k]) == Ok(ExecResult(rc, out)) <==>
            k == |Response(rc, out)|
  {
    var head := |Dec(rc)| + 4;
    var b := Response(rc, out);
    ResponseHeader(rc);
    if k < head {
      var p := b[..k];
      assert p == ("rc=" + Dec(rc))[..k];
      assert forall j :: 0 <= j < |p| ==> p[j] == ("rc=" + Dec(rc))[j];
      assert '\n' !in p;
    } else {
      assert b[..k] == Response(rc, out[..k - head]);
      ParseOfResponse(rc, out[..k - head]);
      if k < |b| { assert |out[..k - head]| < |out|; }
      else { assert out[..k - head] == out; }
    }
  }
}
