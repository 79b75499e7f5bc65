/** From a topology node to a boot specification: `parseMem`, `CheckCaps`,
    `ResolveBootSpec`. */
module BootSpecs {
  import opened Results
  import opened ByteStrings
  import opened Decimal
  import opened Topologies

  datatype Nic = Nic(tap: string, mac: string)

  datatype BootSpec = BootSpec(name: string, kernel: string, rootfs: string, rootfsRW: string,
                               arch: string, cpu: int, memMiB: int, nics: seq<Nic>)

  datatype Caps = Caps(customKernel: bool, arches: seq<string>)

  /** `CheckCaps` returns no error. */
  predicate CapsOk(n: Node, caps: Caps) {
    (n.kernel == "" || caps.customKernel) && n.arch in caps.arches
  }

  /** A 64-bit product: two's complement wrap-around. */
  function Wrap64(x: int): (r: int)
    ensures -MaxInt64 - 1 <= r <= MaxInt64 && (x - r) % 0x1_0000_0000_0000_0000 == 0
  {
    var m := x % 0x1_0000_0000_0000_0000;
    if m > MaxInt64 then m - 0x1_0000_0000_0000_0000 else m
  }

  /** `parseMem`: MiB, with an optional unit; `None` for its error. */
  function ParseMem(text: string): Option<int> {
    var s := TrimSpace(text);
    if s == "" then Some(0)
    else
      var unit := s[|s| - 1];
      var mult := if unit == 'G' || unit == 'g' then 1024 else 1;
      var digits := if unit == 'G' || unit == 'g' || unit == 'M' || unit == 'm' then s[..|s| - 1] else s;
      match Atoi(TrimSpace(digits))
      case None => None
      case Some(n) => if n < 0 then None else Some(Wrap64(n * mult))
  }

  // ----- what sizes are accepted -----------------------------------------

  predicate IsUnit(u: string) { u == "" || u == "M" || u == "m" || u == "G" || u == "g" }

  function Mult(u: string): nat { if u == "G" || u == "g" then 1024 else 1 }

  /** A decimal number that fits 63 bits, with an optional sign; below zero there is only
      minus zero. */
  predicate Numeral(s: string, n: nat) {
    var signed := s != "" && (s[0] == '+' || s[0] == '-');
    var digits := if signed then s[1..] else s;
    && digits != "" && AllDigits(digits) && Value(digits) == n && n <= MaxInt64
    && (s[0] == '-' ==> n == 0)
  }

  lemma AtoiIff(s: string, n: nat)
    ensures Atoi(s) == Some(n) <==> Numeral(s, n)
  {
    hide Value;
  }

  lemma NumeralEnd(s: string, n: nat)
    requires Numeral(s, n)
    ensures s != "" && IsDigit(s[|s| - 1])
  {
    hide Value;
    var signed := s[0] == '+' || s[0] == '-';
    if signed { assert s[|s| - 1] in s[1..]; } else { assert s[|s| - 1] in s; }
  }

  /** The text is a numeral and a unit, with white space around both. */
  predicate SizeText(text: string, front: string, u: string, n: nat) {
    IsUnit(u) && TrimSpace(text) == front + u && Numeral(TrimSpace(front), n)
  }

  lemma SizeIsRead(text: string, front: string, u: string, n: nat)
    requires SizeText(text, front, u, n)
    ensures ParseMem(text) == Some(Wrap64(n * Mult(u)))
  {
    hide Numeral, Wrap64, Atoi, TrimSpace;
    var s := TrimSpace(text);
    NumeralEnd(TrimSpace(front), n);
    AtoiIff(TrimSpace(front), n);
    TrimIdempotent(text);
    if u == "" { assert front == s; } else { assert s[..|s| - 1] == front && s[|s| - 1] == u[0]; }
  }

  lemma ReadIsSize(text: string, v: int) returns (front: string, u: string, n: nat)
    requires ParseMem(text) == Some(v) && TrimSpace(text) != ""
    ensures SizeText(text, front, u, n) && v == Wrap64(n * Mult(u))
  {
    hide Numeral, Wrap64, Atoi, TrimSpace;
    var s := TrimSpace(text);
    var last := s[|s| - 1];
    if last == 'G' || last == 'g' || last == 'M' || last == 'm' {
      front, u := s[..|s| - 1], [last];
    } else {
      front, u := s, "";
    }
    assert s == front + u;
    n := Atoi(TrimSpace(front)).value;
    AtoiIff(TrimSpace(front), n);
  }

  /** A size is accepted if and only if it is blank, which means 0, or a numeral that fits
      63 bits and an optional unit, which is read as the product on 64 bits. */
  lemma ParseMemIff(text: string, v: int)
    ensures ParseMem(text) == Some(v) <==>
            || (TrimSpace(text) == "" && v == 0)
            || exists front, u, n: nat :: SizeText(text, front, u, n) && v == Wrap64(n * Mult(u))
  {
    hide TrimSpace, Wrap64, SizeText, ParseMem;
    if TrimSpace(text) == "" {
      BlankIsZero(text);
    } else if ParseMem(text) == Some(v) {
      var front, u, n := ReadIsSize(text, v);
    }
    forall front, u, n: nat | SizeText(text, front, u, n) ensures ParseMem(text) == Some(Wrap64(n * Mult(u))) {
      SizeIsRead(text, front, u, n);
    }
  }

  lemma BlankIsZero(text: string)
    requires TrimSpace(text) == ""
    ensures ParseMem(text) == Some(0)
  {
  }

  /** A size is exact, the product of its number and its unit, if and only if the product
      fits 63 bits; a larger one wraps instead of being refused. */
  lemma SizeExactIff(text: string, front: string, u: string, n: nat)
    requires SizeText(text, front, u, n)
    ensures ParseMem(text) == Some(n * Mult(u)) <==> n * Mult(u) <= MaxInt64
    ensures u == "G" || u == "g" ==> (ParseMem(text) == Some(n * 1024) <==> n < 0x20_0000_0000_0000)
  {
    hide ParseMem, SizeText;
    SizeIsRead(text, front, u, n);
  }

  function ResolveBootSpec(name: string, n: Node, image: string, rootfs: string, rootfsRW: string): Option<BootSpec> {
    match ParseMem(n.mem)
    case None => None
    case Some(mem) => Some(BootSpec(name, image, rootfs, rootfsRW, n.arch, n.cpu, mem, []))
  }
}
