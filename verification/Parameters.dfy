/** Task parameters: typed values in memory, written from text and read back as numbers. */
module Parameters {
  import opened Basics

  datatype PType = INT8 | UINT8 | INT16 | UINT16 | INT32 | UINT32 | FLOAT | DOUBLE | STRING | UNKNOWN

  datatype Param = Param(name: string, alias: string, ptype: PType, value: seq<Byte>)

  /** What the C library makes of a text: atol, and the bytes stored for the types that are
      no integers. */
  datatype CLib = CLib(atol: string -> int, bytes: (PType, string) -> seq<Byte>)

  predicate IsDecimal(t: PType) {
    t in {INT8, UINT8, INT16, UINT16, INT32, UINT32}
  }

  /** Bytes of an integer type. */
  function Size(t: PType): nat {
    match t
    case INT8 => 1 case UINT8 => 1
    case INT16 => 2 case UINT16 => 2
    case _ => 4
  }

  function Modulus(t: PType): nat {
    match Size(t)
    case 1 => 0x100 case 2 => 0x1_0000 case _ => U32
  }

  /** The n low bytes of u, least significant first. */
  function Store(u: nat, n: nat): (b: seq<Byte>)
    ensures |b| == n
  {
    if n == 0 then [] else [u % 256] + Store(u / 256, n - 1)
  }

  function Load(b: seq<Byte>): nat {
    if b == [] then 0 else b[0] + 256 * Load(b[1..])
  }

  function Pow256(n: nat): nat {
    if n == 0 then 1 else 256 * Pow256(n - 1)
  }

  /** Stored bytes read back as the number when it fits them. */
  lemma {:induction false} LoadStored(u: nat, n: nat)
    requires u < Pow256(n)
    ensures Load(Store(u, n)) == u
  {
    if n > 0 {
      LoadStored(u / 256, n - 1);
      assert Store(u, n)[1..] == Store(u / 256, n - 1);
    }
  }

  /** Byte i of a stored number has the weight 256^i. */
  lemma {:induction false} StoredByte(u: nat, n: nat, i: nat)
    requires i < n
    ensures Pow256(i) > 0 && Store(u, n)[i] == u / Pow256(i) % 256
  {
    if i > 0 {
      StoredByte(u / 256, n - 1, i - 1);
      DivDiv(u, 256, Pow256(i - 1));
    }
  }

  /** A text written to an integer parameter: its value in two's complement of the size of the type, low
      byte first. Other types hold what the library makes of the text; name, alias and type stay. */
  lemma WrittenBytes(p: Param, text: string, lib: CLib, i: nat)
    ensures var r := SetByString(p, text, lib);
            && r.name == p.name && r.alias == p.alias && r.ptype == p.ptype
            && (p.ptype == UNKNOWN ==> r == p)
            && (p.ptype in {FLOAT, DOUBLE, STRING} ==> r.value == lib.bytes(p.ptype, text))
            && (p.ptype in {INT8, UINT8} ==> |r.value| == 1)
            && (p.ptype in {INT16, UINT16} ==> |r.value| == 2)
            && (p.ptype in {INT32, UINT32} ==> |r.value| == 4)
            && (p.ptype !in {FLOAT, DOUBLE, STRING, UNKNOWN} && i < |r.value| ==>
                  Pow256(i) > 0 && r.value[i] == lib.atol(text) % U32 / Pow256(i) % 256)
  {
    if IsDecimal(p.ptype) && i < Size(p.ptype) {
      StoredByte(lib.atol(text) % Modulus(p.ptype), Size(p.ptype), i);
      SmallPow256();
      LowByte(lib.atol(text), Size(p.ptype), i);
    }
  }

  lemma SmallPow256()
    ensures Pow256(0) == 1 && Pow256(1) == 0x100 && Pow256(2) == 0x1_0000 && Pow256(3) == 0x100_0000
  {
    assert Pow256(2) == 256 * Pow256(1) && Pow256(3) == 256 * Pow256(2);
  }

  /** The bytes of a number that a smaller size keeps are those that four bytes would have. */
  lemma LowByte(v: int, size: nat, i: nat)
    requires i < size && size in {1, 2, 4}
    ensures Pow256(i) > 0
    ensures v % (match size case 1 => 0x100 case 2 => 0x1_0000 case _ => U32) / Pow256(i) % 256 ==
            v % U32 / Pow256(i) % 256
  {
    SmallPow256();
    Low(v);
    if size == 2 && i == 1 {
      SecondByte(v % U32);
    }
  }

  lemma Low(v: int)
    ensures v % U32 % 0x1_0000 == v % 0x1_0000
    ensures v % U32 % 0x100 == v % 0x100 && v % 0x1_0000 % 0x100 == v % 0x100
  {
    ModMod(v, 0x1_0000, 0x1_0000);
    ModMod(v, 0x100, 0x100_0000);
    ModMod(v, 0x100, 0x100);
  }

  lemma SecondByte(w: nat)
    ensures w % 0x1_0000 / 0x100 % 0x100 == w / 0x100 % 0x100
  {
  }

  lemma ModulusOfSize(t: PType)
    ensures Modulus(t) == Pow256(Size(t))
  {
    assert Pow256(2) == 256 * Pow256(1) && Pow256(3) == 256 * Pow256(2);
    assert Pow256(4) == 256 * Pow256(3);
  }

  function Signed(u: nat, modulus: nat): int {
    if 2 * u < modulus then u else u - modulus
  }

  /** The number that a read reports, an int32_t: signed types by their sign, the two small
      unsigned types as they are, and uint32_t through a 32-bit long. */
  function ReadNumber(p: Param): int {
    AsNumber(p.ptype, Load(p.value))
  }

  function AsNumber(t: PType, u: nat): int {
    match t
    case UINT8 => u
    case UINT16 => u
    case _ => Signed(u, Modulus(t))
  }

  /** Stores the value of a text in a parameter; nothing for a type that is none. */
  function SetByString(p: Param, text: string, lib: CLib): Param {
    if IsDecimal(p.ptype) then p.(value := Store(lib.atol(text) % Modulus(p.ptype), Size(p.ptype)))
    else if p.ptype == UNKNOWN then p
    else p.(value := lib.bytes(p.ptype, text))
  }

  /** The range of numbers that a read of the type can report. */
  predicate InRange(t: PType, v: int) {
    match t
    case INT8 => -0x80 <= v < 0x80
    case UINT8 => 0 <= v < 0x100
    case INT16 => -0x8000 <= v < 0x8000
    case UINT16 => 0 <= v < 0x1_0000
    case _ => -0x8000_0000 <= v < 0x8000_0000
  }

  /** What is reported for the number v, stored as type t. */
  predicate Reports(t: PType, v: int, reported: int) {
    && InRange(t, reported) && (reported - v) % Modulus(t) == 0
    && (InRange(t, v) ==> reported == v)
  }

  /** Reading back what was written gives the one number in range that is congruent to the
      value of the text. */
  lemma WriteThenRead(p: Param, text: string, lib: CLib)
    requires IsDecimal(p.ptype)
    ensures Reports(p.ptype, lib.atol(text), ReadNumber(SetByString(p, text, lib)))
    ensures |SetByString(p, text, lib).value| == Size(p.ptype)
  {
    var v := lib.atol(text);
    ModulusOfSize(p.ptype);
    LoadStored(v % Modulus(p.ptype), Size(p.ptype));
    AsNumberReports(p.ptype, v);
  }

  lemma AsNumberReports(t: PType, v: int)
    ensures Reports(t, v, AsNumber(t, v % Modulus(t)))
  {
    match Size(t) {
      case 1 => Congruent8(v);
      case 2 => Congruent16(v);
      case _ => Congruent32(v);
    }
  }

  /** Both readings of the low bits of v differ from v by a multiple of the modulus, and give v
      back when it lies in their window. */
  lemma Congruent8(v: int)
    ensures (v % 0x100 - v) % 0x100 == 0 && (Signed(v % 0x100, 0x100) - v) % 0x100 == 0
    ensures -0x80 <= Signed(v % 0x100, 0x100) < 0x80
    ensures (0 <= v < 0x100 ==> v % 0x100 == v) && (-0x80 <= v < 0x80 ==> Signed(v % 0x100, 0x100) == v)
  {
  }

  lemma Congruent16(v: int)
    ensures (v % 0x1_0000 - v) % 0x1_0000 == 0 && (Signed(v % 0x1_0000, 0x1_0000) - v) % 0x1_0000 == 0
    ensures -0x8000 <= Signed(v % 0x1_0000, 0x1_0000) < 0x8000
    ensures (0 <= v < 0x1_0000 ==> v % 0x1_0000 == v) && (-0x8000 <= v < 0x8000 ==> Signed(v % 0x1_0000, 0x1_0000) == v)
  {
  }

  lemma Congruent32(v: int)
    ensures (v % U32 - v) % U32 == 0 && (Signed(v % U32, U32) - v) % U32 == 0
    ensures -0x8000_0000 <= Signed(v % U32, U32) < 0x8000_0000
    ensures (0 <= v < U32 ==> v % U32 == v) && (-0x8000_0000 <= v < 0x8000_0000 ==> Signed(v % U32, U32) == v)
  {
  }

  /** The position of the first parameter with the alias; no alias, no parameter. A list counts
      as empty when its 8-bit count is 0. */
  function FindParam(params: seq<Param>, alias: string): (k: Option<nat>)
    ensures k.Some? ==> k.value < |params| && params[k.value].alias == alias
  {
    if |params| % 256 == 0 || alias == "" then None else FirstAlias(params, alias)
  }

  function FirstAlias(params: seq<Param>, alias: string): (k: Option<nat>)
    ensures k.Some? ==> k.value < |params| && params[k.value].alias == alias
    ensures k.None? ==> forall p <- params :: p.alias != alias
  {
    if params == [] then None
    else if params[0].alias == alias then Some(0)
    else
      match FirstAlias(params[1..], alias)
      case None => None
      case Some(k) => Some(k + 1)
  }

  /** The lookup finds exactly the first parameter with the alias. */
  lemma {:induction false} FirstAliasExact(params: seq<Param>, alias: string)
    ensures match FirstAlias(params, alias)
            case None => forall i :: 0 <= i < |params| ==> params[i].alias != alias
            case Some(k) => params[k].alias == alias && forall i :: 0 <= i < k ==> params[i].alias != alias
  {
    if params != [] && params[0].alias != alias {
      FirstAliasExact(params[1..], alias);
    }
  }

  lemma FindParamExact(params: seq<Param>, alias: string, k: nat)
    ensures FindParam(params, alias) == Some(k) <==>
            && alias != "" && |params| % 256 != 0 && k < |params| && params[k].alias == alias
            && forall i :: 0 <= i < k ==> params[i].alias != alias
  {
    FirstAliasExact(params, alias);
  }

  method GetParameterFromParamList(params: seq<Param>, alias: string) returns (k: Option<nat>)
    ensures k == FindParam(params, alias)
  {
    if |params| % 256 == 0 || alias == "" {
      return None;
    }
    for i := 0 to |params|
      invariant FirstAlias(params, alias) ==
                match FirstAlias(params[i..], alias) case None => None case Some(n) => Some(n + i)
    {
      if params[i].alias == alias {
        return Some(i);
      }
    }
    k := None;
  }

  /** A list after one key-value pair of a set request. */
  function SetParam(params: seq<Param>, key: string, text: string, lib: CLib): (r: seq<Param>)
    ensures |r| == |params|
  {
    match FindParam(params, key)
    case None => params
    case Some(k) => params[k := SetByString(params[k], text, lib)]
  }

  /** The parameter that a key finds is the one written, it is found again, and every other
      parameter keeps its value; aliases and types never change. */
  lemma SetThenFind(params: seq<Param>, key: string, text: string, lib: CLib, other: string)
    ensures var r := SetParam(params, key, text, lib);
            && FindParam(r, other) == FindParam(params, other)
            && (forall i :: 0 <= i < |params| && FindParam(params, key) != Some(i) ==> r[i] == params[i])
            && (FindParam(params, key).Some? ==>
                  r[FindParam(params, key).value] == SetByString(params[FindParam(params, key).value], text, lib))
  {
    var r := SetParam(params, key, text, lib);
    assert forall i :: 0 <= i < |params| ==> r[i].alias == params[i].alias;
    SameAliases(params, r, other);
  }

  /** The same parameters, up to their values. */
  predicate SameKinds(a: seq<Param>, b: seq<Param>) {
    |a| == |b| && forall i :: 0 <= i < |a| ==> SameKind(a[i], b[i])
  }

  predicate SameKind(a: Param, b: Param) {
    a.name == b.name && a.alias == b.alias && a.ptype == b.ptype
  }

  lemma SameKindsTransitive(a: seq<Param>, b: seq<Param>, c: seq<Param>)
    requires SameKinds(a, b) && SameKinds(b, c)
    ensures SameKinds(a, c)
  {
    forall j | 0 <= j < |a| ensures SameKind(a[j], c[j]) {
      assert SameKind(a[j], b[j]) && SameKind(b[j], c[j]);
    }
  }

  // ----- what a read reports -----

  /** A reported value: a number for the integer types, else what is in memory. */
  datatype Reported = Int(n: int) | Raw(ptype: PType, bytes: seq<Byte>)

  /** The dictionary of a response: each alias once. */
  type Report = map<string, Reported>

  function ValueOf(p: Param): Reported {
    if IsDecimal(p.ptype) then Int(ReadNumber(p)) else Raw(p.ptype, p.value)
  }

  /** Adds a parameter to a report, in place of another of the same alias. A type that is none
      has no value object, and then nothing is added. */
  function AddValue(r: Report, p: Param): Report {
    if p.ptype == UNKNOWN then r else r[p.alias := ValueOf(p)]
  }

  /** The report of all parameters of a list. */
  function ReportAll(params: seq<Param>): Report {
    if params == [] then map[] else AddValue(ReportAll(params[..|params| - 1]), params[|params| - 1])
  }

  /** The report of the parameters that the aliases find. */
  function ReportNamed(params: seq<Param>, aliases: seq<string>): Report {
    if aliases == [] then map[]
    else
      var r := ReportNamed(params, aliases[..|aliases| - 1]);
      match FindParam(params, aliases[|aliases| - 1])
      case None => r
      case Some(k) => AddValue(r, params[k])
  }

  /** A report by names holds, for each name listed that finds a parameter, its value, and
      nothing else. */
  lemma {:induction false} ReportNamedExact(params: seq<Param>, aliases: seq<string>, alias: string)
    ensures var r, k := ReportNamed(params, aliases), FindParam(params, alias);
            && (alias in r <==> alias in aliases && k.Some? && params[k.value].ptype != UNKNOWN)
            && (alias in r ==> r[alias] == ValueOf(params[k.value]))
    decreases |aliases|
  {
    if aliases != [] {
      ReportNamedExact(params, aliases[..|aliases| - 1], alias);
      assert aliases == aliases[..|aliases| - 1] + [aliases[|aliases| - 1]];
    }
  }

  /** A full report holds under each alias the value of the last parameter that has it. */
  lemma {:induction false} ReportAllExact(params: seq<Param>, alias: string) returns (k: int)
    ensures -1 <= k < |params|
    ensures forall j :: k < j < |params| ==> params[j].alias != alias || params[j].ptype == UNKNOWN
    ensures k >= 0 ==> params[k].alias == alias && params[k].ptype != UNKNOWN
                       && alias in ReportAll(params) && ReportAll(params)[alias] == ValueOf(params[k])
    ensures k < 0 ==> alias !in ReportAll(params)
  {
    k := |params| - 1;
    if params != [] && (params[k].alias != alias || params[k].ptype == UNKNOWN) {
      k := ReportAllExact(params[..k], alias);
    }
  }

  lemma {:induction false} SameAliases(a: seq<Param>, b: seq<Param>, alias: string)
    requires |a| == |b| && forall i :: 0 <= i < |a| ==> a[i].alias == b[i].alias
    ensures FirstAlias(a, alias) == FirstAlias(b, alias)
  {
    if a != [] {
      SameAliases(a[1..], b[1..], alias);
    }
  }
}
