/** `CacheKey`: a hash over length-prefixed fields.  The hash is any function from
    byte strings to digests; nothing is assumed about it. */
module CacheKeys {
  import opened Results
  import opened ByteStrings
  import opened Decimal
  import opened Hex

  type Digest = string -> seq<Octet>

  function Field(f: string): string { Dec(|f|) + ":" + f }

  function EncodeFields(fields: seq<string>): string {
    if fields == [] then "" else Field(fields[0]) + EncodeFields(fields[1..])
  }

  datatype Inputs = Inputs(ref: string, arch: string, toolchain: string, config: string)

  function FieldsOf(k: Inputs): seq<string> { [k.ref, k.arch, k.toolchain, k.config] }

  function Key(hash: Digest, k: Inputs): string { HexString(hash(EncodeFields(FieldsOf(k)))) }

  lemma {:induction false} EncodeSnoc(fields: seq<string>, f: string)
    ensures EncodeFields(fields + [f]) == EncodeFields(fields) + Field(f)
  {
    if fields == [] {
      assert [] + [f] == [f];
      assert EncodeFields([f]) == Field(f) + EncodeFields([]);
    } else {
      assert (fields + [f])[1..] == fields[1..] + [f];
      EncodeSnoc(fields[1..], f);
    }
  }

  /** The loop of the source: `fed` is what the hash state has been given. */
  method CacheKey(hash: Digest, ref: string, arch: string, toolchain: string, config: string)
    returns (key: string)
    ensures key == Key(hash, Inputs(ref, arch, toolchain, config))
  {
    var fields := [ref, arch, toolchain, config];
    var fed := "";
    for i := 0 to |fields|
      invariant fed == EncodeFields(fields[..i])
    {
      assert fields[..i + 1] == fields[..i] + [fields[i]];
      EncodeSnoc(fields[..i], fields[i]);
      fed := fed + (Dec(|fields[i]|) + ":");
      fed := fed + fields[i];
    }
    assert fields[..|fields|] == fields;
    key := HexString(hash(fed));
  }

  // ----- decoding --------------------------------------------------------

  /** Reads one field and leaves the rest; rejects a length that is not written as
      `%d` writes it, and a field cut short. */
  function DecodeField(s: string): Option<(string, string)> {
    var i := IndexOf(s, ':');
    if i == |s| || !AllDigits(s[..i]) then None
    else
      var len := Value(s[..i]);
      if Dec(len) != s[..i] || i + 1 + len > |s| then None
      else Some((s[i + 1..i + 1 + len], s[i + 1 + len..]))
  }

  /** Reads `n` fields and rejects left-over bytes. */
  function DecodeFields(s: string, n: nat): Option<seq<string>> {
    if n == 0 then (if s == "" then Some([]) else None)
    else
      match DecodeField(s)
      case None => None
      case Some((f, rest)) =>
        match DecodeFields(rest, n - 1)
        case None => None
        case Some(fs) => Some([f] + fs)
  }

  lemma DecodeOfField(f: string, rest: string)
    ensures DecodeField(Field(f) + rest) == Some((f, rest))
  {
    var s := Field(f) + rest;
    var d := Dec(|f|);
    assert s == d + [':'] + (f + rest);
    IndexOfPrefix(d, ':', f + rest);
    ValueOfDec(|f|);
    assert s[..|d|] == d;
    assert s[|d| + 1..|d| + 1 + |f|] == f;
    assert s[|d| + 1 + |f|..] == rest;
  }

  lemma FieldOfDecode(s: string)
    ensures DecodeField(s).Some? ==>
              s == Field(DecodeField(s).value.0) + DecodeField(s).value.1
  {
    if DecodeField(s).Some? {
      var i := IndexOf(s, ':');
      var len := Value(s[..i]);
      assert s == s[..i] + ":" + s[i + 1..i + 1 + len] + s[i + 1 + len..];
    }
  }

  /** The encoding is uniquely decodable, for all field contents. */
  lemma {:induction false} DecodeOfEncode(fields: seq<string>)
    ensures DecodeFields(EncodeFields(fields), |fields|) == Some(fields)
  {
    if fields != [] {
      DecodeOfField(fields[0], EncodeFields(fields[1..]));
      DecodeOfEncode(fields[1..]);
      assert fields == [fields[0]] + fields[1..];
    }
  }

  /** The decoder accepts nothing but encodings. */
  lemma {:induction false} EncodeOfDecode(s: string, n: nat)
    ensures DecodeFields(s, n).Some? ==>
              |DecodeFields(s, n).value| == n && EncodeFields(DecodeFields(s, n).value) == s
    decreases n
  {
    if n > 0 && DecodeFields(s, n).Some? {
      FieldOfDecode(s);
      var (f, rest) := DecodeField(s).value;
      EncodeOfDecode(rest, n - 1);
      var fs := DecodeFields(rest, n - 1).value;
      assert ([f] + fs)[1..] == fs;
    }
  }

  /** A collision of the hash on two different strings. */
  predicate Collision(hash: Digest, a: string, b: string) { a != b && hash(a) == hash(b) }

  /** Two inputs have the same key exactly when they are equal or their encodings
      are a collision of the hash. */
  lemma SameKeyIff(hash: Digest, a: Inputs, b: Inputs)
    ensures Key(hash, a) == Key(hash, b) <==>
            a == b || Collision(hash, EncodeFields(FieldsOf(a)), EncodeFields(FieldsOf(b)))
  {
    if Key(hash, a) == Key(hash, b) {
      HexStringInjective(hash(EncodeFields(FieldsOf(a))), hash(EncodeFields(FieldsOf(b))));
    }
    if EncodeFields(FieldsOf(a)) == EncodeFields(FieldsOf(b)) {
      DecodeOfEncode(FieldsOf(a));
      DecodeOfEncode(FieldsOf(b));
      assert FieldsOf(a)[0] == FieldsOf(b)[0] && FieldsOf(a)[1] == FieldsOf(b)[1]
             && FieldsOf(a)[2] == FieldsOf(b)[2] && FieldsOf(a)[3] == FieldsOf(b)[3];
    }
  }
}
