/** The formatter d_printf (iw_debug.c). Arguments are the words following the format in
    memory; a word used as a pointer designates the terminated string found there. */
module Printf {
  import opened Basics
  import opened Numbers

  /** The argument words from the current one on, and the strings in memory. */
  datatype Memory = Memory(args: nat -> Int32, text: Int32 -> string)

  /** A conversion specification as scanned. */
  datatype Spec = Spec(leftjust: bool, fill: char, fmin: Int32, fmax: Int32)

  /** Reads a decimal number at the front: its value and what follows. */
  function ScanDigits(fmt: string, n: Int32): (r: (Int32, string))
    ensures |r.1| <= |fmt|
  {
    if fmt == [] || !IsDigit(fmt[0]) then (n, fmt)
    else ScanDigits(fmt[1..], Wrap(n * 10 + (fmt[0] as int - '0' as int)))
  }

  /** A number in the format, or a star for the next argument. Result: the value, what
      follows, and the number of the next argument. */
  function ScanNumber(fmt: string, mem: Memory, arg: nat): (r: (Int32, string, nat))
    ensures |r.1| <= |fmt|
  {
    if CharAt(fmt, 0) == '*' then (mem.args(arg), fmt[1..], arg + 1)
    else var (n, rest) := ScanDigits(fmt, 0); (n, rest, arg)
  }

  /** The text length counted in an int, cut to the precision if there is one; a negative
      precision makes it negative. */
  function Length(spec: Spec, text: string): (n: Int32)
    ensures n <= |text|
  {
    if spec.fmax != 0 && Wrap(|text|) > spec.fmax then spec.fmax else Wrap(|text|)
  }

  /** How many times to fill, in the int arithmetic of the source. */
  function Leading(spec: Spec, negative: bool, length: Int32): Int32 {
    var leading := if spec.fmin != 0 then Wrap(spec.fmin - length) else 0;
    if negative && (spec.fmax != 0 || spec.fmin != 0) then Wrap(leading - 1) else leading
  }

  /** The characters of a text that the field keeps. */
  function Kept(spec: Spec, text: string): string {
    var length := Length(spec, text);
    if length <= 0 then [] else text[..length]
  }

  /** A kept text with its sign and fill characters. */
  function Compose(spec: Spec, negative: bool, kept: string, leading: int): string {
    (if negative && spec.fill == '0' then ['-'] else [])
    + (if spec.leftjust then [] else Repeat(spec.fill, leading))
    + (if negative && spec.fill == ' ' then ['-'] else [])
    + kept
    + (if spec.leftjust then Repeat(spec.fill, leading) else [])
  }

  /** Lays a text out in its field. */
  function Layout(spec: Spec, negative: bool, text: string): string {
    Compose(spec, negative, Kept(spec, text), Leading(spec, negative, Length(spec, text)))
  }

  /** What a conversion makes of the field it was given. */
  function FieldSpec(conv: char, spec: Spec): Spec {
    match conv
    case 'c' => spec.(fill := ' ', fmax := 0)
    case 's' => spec.(fill := ' ')
    case 'd' | 'o' | 'x' | 'X' => spec.(fmax := 0)
    case _ => spec
  }

  /** The text of a conversion for the argument word w. Any conversion character that is not
      supported takes the word as a pointer and prints one character. */
  ghost function FieldText(conv: char, w: Int32, mem: Memory): string {
    match conv
    case 'c' => [(w % 256) as char]
    case 's' => mem.text(w)
    case 'd' => Numeral(Unsigned32(if w < 0 then Wrap(0 - w) else w), 10, false)
    case 'u' => Numeral(Unsigned32(w), 10, false)
    case 'o' => Numeral(Unsigned32(w), 8, false)
    case 'x' => Numeral(Unsigned32(w), 16, false)
    case 'X' => Numeral(Unsigned32(w), 16, true)
    case _ => [CharAt(mem.text(w), 0)]
  }

  ghost function Convert(conv: char, spec: Spec, w: Int32, mem: Memory): string {
    Layout(FieldSpec(conv, spec), conv == 'd' && w < 0, FieldText(conv, w, mem))
  }

  /** Everything between a percent sign and the conversion character: the specification, the
      rest of the format from that character on, and the number of the next argument. */
  function ScanSpec(fmt: string, mem: Memory, arg: nat): (r: (Spec, string, nat))
    ensures |r.1| <= |fmt|
  {
    var leftjust := CharAt(fmt, 0) == '-';
    var f := if leftjust then fmt[1..] else fmt;
    var fill := if CharAt(f, 0) == '0' then '0' else ' ';
    var g := if fill == '0' then f[1..] else f;
    var (fmin, h, arg1) := ScanNumber(g, mem, arg);
    if CharAt(h, 0) == '.' then
      var (fmax, k, arg2) := ScanNumber(h[1..], mem, arg1);
      (Spec(leftjust, fill, fmin, fmax), k, arg2)
    else (Spec(leftjust, fill, fmin, 0), h, arg1)
  }

  /** The directive at the front of a format: what it emits, what of the format is left, and
      the number of the next argument. A format that ends within a conversion emits its
      percent sign. */
  ghost function Directive(fmt: string, mem: Memory, arg: nat): (r: (string, string, nat))
    requires fmt != []
    ensures |r.1| < |fmt|
  {
    if fmt[0] != '%' then ([fmt[0]], fmt[1..], arg)
    else if CharAt(fmt, 1) == '%' then (['%'], fmt[2..], arg)
    else
      var (spec, f, arg') := ScanSpec(fmt[1..], mem, arg);
      if f == [] then (['%'], [], arg') else (Convert(f[0], spec, mem.args(arg'), mem), f[1..], arg' + 1)
  }

  /** All characters that d_printf emits. */
  ghost function Format(fmt: string, mem: Memory, arg: nat): string
    decreases |fmt|
  {
    if fmt == [] then []
    else var (field, rest, arg') := Directive(fmt, mem, arg); field + Format(rest, mem, arg')
  }

  // ----- the loops of the formatter -----

  method ScanDigitsAt(fmt: string, i: nat) returns (n: Int32, j: nat)
    requires i <= |fmt|
    ensures i <= j <= |fmt| && ScanDigits(fmt[i..], 0) == (n, fmt[j..])
  {
    n, j := 0, i;
    while IsDigit(CharAt(fmt, j))
      invariant i <= j <= |fmt|
      invariant ScanDigits(fmt[j..], n) == ScanDigits(fmt[i..], 0)
      decreases |fmt| - j
    {
      n := Wrap(n * 10 + (fmt[j] as int - '0' as int));
      j := j + 1;
    }
  }

  method ScanNumberAt(fmt: string, mem: Memory, i: nat, arg: nat) returns (n: Int32, j: nat, arg': nat)
    requires i <= |fmt|
    ensures i <= j <= |fmt| && ScanNumber(fmt[i..], mem, arg) == (n, fmt[j..], arg')
  {
    if CharAt(fmt, i) == '*' {
      return mem.args(arg), i + 1, arg + 1;
    }
    arg' := arg;
    n, j := ScanDigitsAt(fmt, i);
  }

  method ScanSpecAt(fmt: string, mem: Memory, i: nat, arg: nat) returns (spec: Spec, j: nat, arg': nat)
    requires i <= |fmt|
    ensures i <= j <= |fmt| && ScanSpec(fmt[i..], mem, arg) == (spec, fmt[j..], arg')
  {
    j := i;
    var leftjust := CharAt(fmt, j) == '-';
    if leftjust {
      j := j + 1;
    }
    var fill := ' ';
    if CharAt(fmt, j) == '0' {
      fill, j := '0', j + 1;
    }
    var fmin, fmax;
    fmin, j, arg' := ScanNumberAt(fmt, mem, j, arg);
    fmax := 0;
    if CharAt(fmt, j) == '.' {
      fmax, j, arg' := ScanNumberAt(fmt, mem, j + 1, arg');
    }
    spec := Spec(leftjust, fill, fmin, fmax);
  }

  lemma {:induction false} RepeatAppend(c: char, n: nat)
    ensures Repeat(c, n) + [c] == Repeat(c, n + 1)
  {
    if n > 0 {
      RepeatAppend(c, n - 1);
    }
  }

  method EmitRepeat(c: char, n: int) returns (out: string)
    ensures out == Repeat(c, n)
  {
    out := [];
    var i := 0;
    while i < n
      invariant 0 <= i && (i <= n || i == 0) && out == Repeat(c, i)
    {
      RepeatAppend(c, i);
      out := out + [c];
      i := i + 1;
    }
  }

  method EmitText(text: string, length: Int32) returns (out: string)
    requires length <= |text|
    ensures out == if length <= 0 then [] else text[..length]
  {
    out := [];
    var i := 0;
    while i < length
      invariant 0 <= i && (i <= length || i == 0) && out == text[..i]
    {
      out := out + [text[i]];
      i := i + 1;
    }
  }

  /** The length of the text and the number of fills. */
  method Measure(spec: Spec, negative: bool, text: string) returns (length: Int32, leading: Int32)
    ensures length == Length(spec, text) && leading == Leading(spec, negative, length)
  {
    length, leading := Wrap(|text|), 0;
    if spec.fmax != 0 || spec.fmin != 0 {
      if spec.fmax != 0 && length > spec.fmax {
        length := spec.fmax;
      }
      if spec.fmin != 0 {
        leading := Wrap(spec.fmin - length);
      }
      if negative {
        leading := Wrap(leading - 1);
      }
    }
  }

  method EmitField(spec: Spec, negative: bool, text: string) returns (out: string)
    ensures out == Layout(spec, negative, text)
  {
    var length, leading := Measure(spec, negative, text);
    var fill := EmitRepeat(spec.fill, leading);
    var body := EmitText(text, length);
    out := if negative && spec.fill == '0' then ['-'] else [];
    out := out + (if spec.leftjust then [] else fill);
    out := out + (if negative && spec.fill == ' ' then ['-'] else []);
    out := out + body;
    out := out + (if spec.leftjust then fill else []);
  }

  method Number(n: nat, base: nat, upper: bool) returns (text: string)
    requires n < U32 && 8 <= base <= 16
    ensures text == Numeral(n, base, upper)
  {
    var buffer := new char[64](_ => '\0');
    var length := PrintDigits(n, base, upper, buffer);
    text := buffer[..length];
  }

  /** The switch on the conversion character: the text it prints. */
  method ConversionText(conv: char, w: Int32, mem: Memory) returns (text: string)
    ensures text == FieldText(conv, w, mem)
  {
    match conv {
      case 'c' => text := [(w % 256) as char];
      case 's' => text := mem.text(w);
      case 'd' =>
        var i := w;
        if i < 0 {
          i := Wrap(-i);
        }
        text := Number(i % U32, 10, false);
      case 'u' => text := Number(w % U32, 10, false);
      case 'o' => text := Number(w % U32, 8, false);
      case 'x' => text := Number(w % U32, 16, false);
      case 'X' => text := Number(w % U32, 16, true);
      case _ => text := [CharAt(mem.text(w), 0)];
    }
  }

  method EmitConversion(conv: char, spec: Spec, w: Int32, mem: Memory) returns (out: string)
    ensures out == Convert(conv, spec, w, mem)
  {
    var text := ConversionText(conv, w, mem);
    out := EmitField(FieldSpec(conv, spec), conv == 'd' && w < 0, text);
  }

  /** Carries out the directive at position i. */
  method EmitNext(fmt: string, mem: Memory, i: nat, arg: nat) returns (field: string, j: nat, arg': nat)
    requires i < |fmt|
    ensures i < j <= |fmt|
    ensures Directive(fmt[i..], mem, arg) == (field, fmt[j..], arg')
  {
    field, j, arg' := [fmt[i]], i + 1, arg;
    assert fmt[i..][1..] == fmt[i + 1..];
    if fmt[i] != '%' {
      return;
    }
    if CharAt(fmt, i + 1) == '%' {
      j := i + 2;
      assert fmt[i..][2..] == fmt[j..];
      return;
    }
    assert CharAt(fmt[i..], 1) == CharAt(fmt, i + 1);
    var spec;
    spec, j, arg' := ScanSpecAt(fmt, mem, i + 1, arg);
    if j < |fmt| {
      field := EmitConversion(fmt[j], spec, mem.args(arg'), mem);
      assert fmt[j..][1..] == fmt[j + 1..];
      j, arg' := j + 1, arg' + 1;
    } else {
      field := ['%'];
    }
  }

  /** The formatter: the characters it hands to its output function, in order. */
  method DPrintf(fmt: string, mem: Memory) returns (out: string)
    requires '\0' !in fmt
    ensures out == Format(fmt, mem, 0)
  {
    var i, arg := 0, 0;
    out := [];
    assert fmt[0..] == fmt;
    while i < |fmt|
      invariant i <= |fmt|
      invariant Format(fmt, mem, 0) == out + Format(fmt[i..], mem, arg)
    {
      var field, j, arg' := EmitNext(fmt, mem, i, arg);
      Regroup(out, field, Format(fmt[j..], mem, arg'));
      out, i, arg := out + field, j, arg';
    }
    assert fmt[i..] == [];
  }

  // ----- the emitted field -----

  /** Scanning the numeral of w reads w. */
  lemma {:induction false} ScanIsAccumulate(s: string, rest: string, n: Int32)
    requires AllDigits(s, false) && (rest == [] || !IsDigit(rest[0]))
    ensures ScanDigits(s + rest, n) == (Accumulate(s, n, false), rest)
    decreases |s|
  {
    if s == [] {
      assert s + rest == rest;
    } else {
      assert s[0] in s && (s + rest)[1..] == s[1..] + rest;
      ScanIsAccumulate(s[1..], rest, Wrap(n * 10 + (s[0] as int - '0' as int)));
    }
  }

  /** A width or a precision as it is written: nothing, a number, or a star for the next argument. */
  datatype Count = Absent | Given(n: nat) | Star

  ghost function CountText(c: Count): string {
    match c
    case Absent => ""
    case Given(n) => Numeral(n, 10, false)
    case Star => "*"
  }

  function CountValue(c: Count, mem: Memory, arg: nat): Int32 {
    match c
    case Absent => 0
    case Given(n) => Wrap(n)
    case Star => mem.args(arg)
  }

  function CountArgs(c: Count): nat {
    if c.Star? then 1 else 0
  }

  /** A conversion specification as it is written between the percent sign and the conversion
      character. */
  datatype Written = Written(leftjust: bool, zero: bool, width: Count, precision: Option<Count>)

  /** A width that is written without the zero flag does not start with a zero. */
  predicate Plain(w: Written) {
    w.width.Given? && !w.zero ==> w.width.n > 0
  }

  ghost function PrecisionText(p: Option<Count>): string {
    if p.None? then "" else "." + CountText(p.value)
  }

  ghost function SpecText(w: Written): string {
    (if w.leftjust then "-" else "") +
    ((if w.zero then "0" else "") + (CountText(w.width) + PrecisionText(w.precision)))
  }

  /** What it specifies, and the number of the argument that follows it. */
  function SpecOf(w: Written, mem: Memory, arg: nat): (Spec, nat) {
    var fill, arg1 := if w.zero then '0' else ' ', arg + CountArgs(w.width);
    match w.precision
    case None => (Spec(w.leftjust, fill, CountValue(w.width, mem, arg), 0), arg1)
    case Some(p) =>
      (Spec(w.leftjust, fill, CountValue(w.width, mem, arg), CountValue(p, mem, arg1)), arg1 + CountArgs(p))
  }

  /** What follows a specification: the end of the format, or a character that is no part of it. */
  predicate Ends(tail: string) {
    tail != [] ==> !IsDigit(tail[0]) && tail[0] != '-' && tail[0] != '*' && tail[0] != '.'
  }

  lemma ScanCount(c: Count, tail: string, mem: Memory, arg: nat)
    requires tail != [] ==> !IsDigit(tail[0]) && tail[0] != '*'
    ensures ScanNumber(CountText(c) + tail, mem, arg) == (CountValue(c, mem, arg), tail, arg + CountArgs(c))
    ensures c.Given? ==> CountText(c) != [] && IsDigit(CountText(c)[0]) && (CountText(c)[0] == '0' <==> c.n == 0)
  {
    var text := CountText(c);
    match c {
      case Absent => assert text + tail == tail;
      case Star => assert (text + tail)[1..] == tail;
      case Given(n) =>
        AccumulateNumeral(n, false, false);
        assert text[0] in text && (text + tail)[0] == text[0];
        NoLeadingZero(n, 10, false);
        ScanIsAccumulate(text, tail, 0);
    }
  }

  /** A format from the width on, from the zero flag on, and from the other flag on. */
  ghost function Counts(w: Written, tail: string): string {
    CountText(w.width) + (PrecisionText(w.precision) + tail)
  }

  ghost function Zeroed(w: Written, tail: string): string {
    (if w.zero then "0" else "") + Counts(w, tail)
  }

  ghost function Dashed(w: Written, tail: string): string {
    (if w.leftjust then "-" else "") + Zeroed(w, tail)
  }

  lemma SpecTextIs(w: Written, tail: string)
    ensures SpecText(w) + tail == Dashed(w, tail)
  {
  }

  /** The scan of the precision. */
  lemma ScanPrecision(p: Option<Count>, tail: string, mem: Memory, arg: nat)
    requires Ends(tail)
    ensures var after := PrecisionText(p) + tail;
            if p.None? then after == tail && CharAt(after, 0) != '.'
            else && CharAt(after, 0) == '.'
                 && ScanNumber(after[1..], mem, arg) == (CountValue(p.value, mem, arg), tail, arg + CountArgs(p.value))
    ensures var after := PrecisionText(p) + tail;
            after != [] ==> !IsDigit(after[0]) && after[0] != '*' && after[0] != '-'
  {
    if p.Some? {
      assert (PrecisionText(p) + tail)[1..] == CountText(p.value) + tail;
      ScanCount(p.value, tail, mem, arg);
    } else {
      assert PrecisionText(p) + tail == tail;
    }
  }

  /** Both flags are recognised, and what follows them is taken for neither, nor for a percent
      sign. */
  lemma Flags(w: Written, tail: string)
    requires Plain(w) && Ends(tail)
    ensures CharAt(Dashed(w, tail), 0) == '-' <==> w.leftjust
    ensures w.leftjust ==> Dashed(w, tail)[1..] == Zeroed(w, tail)
    ensures !w.leftjust ==> Dashed(w, tail) == Zeroed(w, tail)
    ensures CharAt(Zeroed(w, tail), 0) == '0' <==> w.zero
    ensures w.zero ==> Zeroed(w, tail)[1..] == Counts(w, tail)
    ensures !w.zero ==> Zeroed(w, tail) == Counts(w, tail)
    ensures CharAt(Counts(w, tail), 0) == '%' ==>
            CountText(w.width) == "" && w.precision.None? && CharAt(tail, 0) == '%'
  {
    var mem := Memory(_ => 0, _ => "");
    FirstOfCounts(w, tail, mem);
    assert "" + Counts(w, tail) == Counts(w, tail) && "" + Zeroed(w, tail) == Zeroed(w, tail);
  }

  lemma FirstOfCounts(w: Written, tail: string, mem: Memory)
    requires Plain(w) && Ends(tail)
    ensures var c := CharAt(Counts(w, tail), 0);
            && c != '-' && (!w.zero ==> c != '0')
            && (c == '%' ==> CountText(w.width) == "" && w.precision.None? && CharAt(tail, 0) == '%')
  {
    var after := PrecisionText(w.precision) + tail;
    ScanPrecision(w.precision, tail, mem, 0);
    ScanCount(w.width, after, mem, 0);
    if w.width.Absent? {
      assert Counts(w, tail) == after;
    }
  }

  /** Scanning a specification as it is written gives what it specifies. */
  lemma ScanWritten(w: Written, tail: string, mem: Memory, arg: nat)
    requires Plain(w) && Ends(tail)
    ensures ScanSpec(SpecText(w) + tail, mem, arg) == (SpecOf(w, mem, arg).0, tail, SpecOf(w, mem, arg).1)
  {
    SpecTextIs(w, tail);
    Flags(w, tail);
    ScanCounts(w, tail, mem, arg);
  }

  lemma ScanCounts(w: Written, tail: string, mem: Memory, arg: nat)
    requires Ends(tail)
    ensures var (fmin, h, arg1) := ScanNumber(Counts(w, tail), mem, arg);
            && fmin == CountValue(w.width, mem, arg) && arg1 == arg + CountArgs(w.width)
            && if w.precision.None? then h == tail && CharAt(h, 0) != '.'
               else && CharAt(h, 0) == '.'
                    && ScanNumber(h[1..], mem, arg1)
                       == (CountValue(w.precision.value, mem, arg1), tail, arg1 + CountArgs(w.precision.value))
  {
    ScanPrecision(w.precision, tail, mem, arg + CountArgs(w.width));
    ScanCount(w.width, PrecisionText(w.precision) + tail, mem, arg);
  }

  function SignWidth(negative: bool): nat {
    if negative then 1 else 0
  }

  /** A field of `pad` fill characters besides the kept text and the sign: on the left unless
      left-justified. The sign stands before the text, and zeros come between them. */
  ghost predicate IsField(out: string, spec: Spec, negative: bool, kept: string, pad: nat) {
    var signAt := if spec.leftjust || spec.fill == '0' then 0 else pad;
    var textAt := SignWidth(negative) + if spec.leftjust then 0 else pad;
    && |out| == |kept| + SignWidth(negative) + pad
    && out[textAt..textAt + |kept|] == kept
    && (negative ==> out[signAt] == '-')
    && forall i :: 0 <= i < |out| && !(textAt <= i < textAt + |kept|) && !(negative && i == signAt) ==>
        out[i] == spec.fill
  }

  function NonNegative(n: int): nat {
    if n <= 0 then 0 else n
  }

  lemma {:induction false} RepeatIsFill(c: char, n: int)
    ensures |Repeat(c, n)| == NonNegative(n)
    ensures forall i :: 0 <= i < |Repeat(c, n)| ==> Repeat(c, n)[i] == c
  {
    if n > 0 {
      RepeatIsFill(c, n - 1);
    }
  }

  /** For both justifications and both fills: where text, sign and fill characters are. */
  lemma ComposeIsField(spec: Spec, negative: bool, kept: string, leading: int)
    requires spec.fill == ' ' || spec.fill == '0'
    ensures IsField(Compose(spec, negative, kept, leading), spec, negative, kept, NonNegative(leading))
  {
    var fill := Repeat(spec.fill, leading);
    RepeatIsFill(spec.fill, leading);
    var sign := if negative then ['-'] else [];
    var out := Compose(spec, negative, kept, leading);
    if spec.leftjust {
      assert out == sign + kept + fill;
    } else if spec.fill == '0' {
      assert out == sign + fill + kept;
    } else {
      assert out == fill + sign + kept;
    }
  }

  /** Every field, whatever its width and precision, is a text, a sign and fill characters
      in their places. */
  lemma LayoutIsField(spec: Spec, negative: bool, text: string)
    requires spec.fill == ' ' || spec.fill == '0'
    ensures IsField(Layout(spec, negative, text), spec, negative, Kept(spec, text),
                    NonNegative(Leading(spec, negative, Length(spec, text))))
  {
    ComposeIsField(spec, negative, Kept(spec, text), Leading(spec, negative, Length(spec, text)));
  }

  lemma LengthIs(spec: Spec, text: string)
    requires spec.fmax >= 0 && |text| < 0x8000_0000
    ensures Length(spec, text) == |Kept(spec, text)| ==
            if spec.fmax != 0 && |text| > spec.fmax then spec.fmax else |text|
  {
  }

  lemma LeadingIs(spec: Spec, negative: bool, length: Int32)
    ensures spec.fmin == 0 ==> Leading(spec, negative, length) <= 0
    ensures spec.fmin != 0 ==> Leading(spec, negative, length) == Wrap(spec.fmin - length - SignWidth(negative))
  {
    if spec.fmin != 0 && negative {
      WrapStep(spec.fmin - length, 1, -1);
    }
  }

  lemma WrapBelow(x: int)
    requires 0 - U32 < x < 0x8000_0000
    ensures if x >= -0x8000_0000 then Wrap(x) == x else Wrap(x) == x + U32
  {
  }

  /** Without a negative precision, a field is max(width, text and sign) characters wide exactly
      when the width is at most 2^31 below what the text and the sign need. */
  lemma WidthExact(spec: Spec, negative: bool, text: string)
    requires spec.fill == ' ' || spec.fill == '0'
    requires spec.fmax >= 0 && |text| + SignWidth(negative) < 0x8000_0000
    ensures var need := |Kept(spec, text)| + SignWidth(negative);
            |Layout(spec, negative, text)| == (if spec.fmin > need then spec.fmin else need)
            <==> spec.fmin == 0 || spec.fmin - need >= -0x8000_0000
  {
    LayoutIsField(spec, negative, text);
    LengthIs(spec, text);
    LeadingIs(spec, negative, Length(spec, text));
    WrapBelow(spec.fmin - |Kept(spec, text)| - SignWidth(negative));
  }

  /** The least width fills up to 2^31 characters instead of none. */
  lemma LeastWidth()
    ensures |Layout(Spec(false, ' ', -0x8000_0000, 0), false, "5")| == 0x8000_0000
  {
    LayoutIsField(Spec(false, ' ', -0x8000_0000, 0), false, "5");
  }

  /** A zero-filled field: sign, zeros, digits. */
  lemma LayoutZeroFilled(w: Int32, negative: bool, s: string) returns (k: nat)
    requires w >= 0 && |s| <= 11
    ensures k == NonNegative(w - |s| - SignWidth(negative))
    ensures var t := Repeat('0', k) + s;
            Layout(Spec(false, '0', w, 0), negative, s) == if negative then ['-'] + t else t
  {
    var spec := Spec(false, '0', w, 0);
    LengthIs(spec, s);
    LeadingIs(spec, negative, |s|);
    WrapBelow(w - |s| - SignWidth(negative));
    var leading := Leading(spec, negative, |s|);
    k := NonNegative(leading);
    assert s[..|s|] == s && Repeat('0', leading) == Repeat('0', k);
  }

  /** The magnitude that is printed; for the least int the negation wraps. */
  lemma Magnitude(i: Int32)
    ensures Unsigned32(if i < 0 then Wrap(0 - i) else i) == Abs(i)
  {
  }

  function Abs(i: int): nat {
    if i < 0 then -i else i
  }

  /** Text without a percent sign is emitted as it is. */
  lemma {:induction false} FormatPlain(text: string, rest: string, mem: Memory, arg: nat)
    requires '%' !in text
    ensures Format(text + rest, mem, arg) == text + Format(rest, mem, arg)
  {
    if text == [] {
      assert text + rest == rest;
    } else {
      assert (text + rest)[1..] == text[1..] + rest;
      FormatPlain(text[1..], rest, mem, arg);
    }
  }

  /** Two percent signs emit one. */
  lemma FormatPercent(rest: string, mem: Memory, arg: nat)
    ensures Format(['%', '%'] + rest, mem, arg) == ['%'] + Format(rest, mem, arg)
  {
    assert (['%', '%'] + rest)[2..] == rest;
  }

  /** A conversion is emitted as the field of its argument, and the rest of the format follows. A
      percent sign right after a percent sign is no conversion. */
  lemma FormatConversion(w: Written, c: char, rest: string, mem: Memory, arg: nat)
    requires Plain(w) && Ends([c] + rest) && (c == '%' ==> SpecText(w) != "")
    ensures var (spec, next) := SpecOf(w, mem, arg);
            Format(['%'] + (SpecText(w) + ([c] + rest)), mem, arg) ==
                Convert(c, spec, mem.args(next), mem) + Format(rest, mem, next + 1)
  {
    DirectiveIsConversion(w, c, rest, mem, arg);
  }

  lemma DirectiveIsConversion(w: Written, c: char, rest: string, mem: Memory, arg: nat)
    requires Plain(w) && Ends([c] + rest) && (c == '%' ==> SpecText(w) != "")
    ensures var (spec, next) := SpecOf(w, mem, arg);
            Directive(['%'] + (SpecText(w) + ([c] + rest)), mem, arg) ==
                (Convert(c, spec, mem.args(next), mem), rest, next + 1)
  {
    var tail := [c] + rest;
    var f := SpecText(w) + tail;
    ScanWritten(w, tail, mem, arg);
    FirstIsNoPercent(w, tail);
    assert (['%'] + f)[1..] == f && CharAt(['%'] + f, 1) == CharAt(f, 0) && tail[0] == c && tail[1..] == rest;
  }

  /** The field of a conversion: the kept text, the sign and the fill characters in their places. */
  lemma ConversionIsField(c: char, spec: Spec, word: Int32, mem: Memory)
    requires spec.fill == ' ' || spec.fill == '0'
    ensures IsConverted(Convert(c, spec, word, mem), c, spec, word, mem)
  {
    LayoutIsField(FieldSpec(c, spec), c == 'd' && word < 0, FieldText(c, word, mem));
  }

  lemma FirstIsNoPercent(w: Written, tail: string)
    requires Plain(w) && Ends(tail) && (CharAt(tail, 0) == '%' ==> SpecText(w) != "")
    ensures CharAt(SpecText(w) + tail, 0) != '%'
  {
    SpecTextIs(w, tail);
    Flags(w, tail);
  }

  /** A field that a conversion makes of an argument word. */
  ghost predicate IsConverted(out: string, c: char, spec: Spec, word: Int32, mem: Memory) {
    var field, negative, text := FieldSpec(c, spec), c == 'd' && word < 0, FieldText(c, word, mem);
    IsField(out, field, negative, Kept(field, text), NonNegative(Leading(field, negative, Length(field, text))))
  }

  /** A specification that the format ends in emits a percent sign. */
  lemma FormatUnfinished(w: Written, mem: Memory, arg: nat)
    requires Plain(w)
    ensures Format(['%'] + SpecText(w), mem, arg) == "%"
  {
    var fmt := ['%'] + SpecText(w);
    ScanWritten(w, "", mem, arg);
    FirstIsNoPercent(w, "");
    assert SpecText(w) + "" == SpecText(w) && fmt[1..] == SpecText(w) && CharAt(fmt, 1) == CharAt(SpecText(w), 0);
    assert Directive(fmt, mem, arg) == ("%", "", SpecOf(w, mem, arg).1);
  }

  lemma ConvertDecimal(w: Int32, i: Int32, mem: Memory)
    ensures Convert('d', Spec(false, '0', w, 0), i, mem) ==
            Layout(Spec(false, '0', w, 0), i < 0, Numeral(Abs(i), 10, false))
  {
    Magnitude(i);
  }

  /** stod reads `out` as i, and `out` fills a field of width w exactly, or else is as long
      as the digits and the sign. */
  ghost predicate ReadsBack(out: string, w: int, i: int) {
    var need := |Numeral(Abs(i), 10, false)| + SignWidth(i < 0);
    Stod(out) == i && |out| == if w > need then w else need
  }

  lemma SignedMagnitude(i: Int32)
    ensures (if i < 0 then Wrap(0 - Abs(i)) else Wrap(Abs(i))) == i
  {
  }

  lemma ZeroFilledReadsBack(w: Int32, i: Int32, out: string)
    requires w >= 0 && out == Layout(Spec(false, '0', w, 0), i < 0, Numeral(Abs(i), 10, false))
    ensures ReadsBack(out, w, i)
  {
    var s := Numeral(Abs(i), 10, false);
    NumeralFits(Abs(i), 10, false);
    var k := LayoutZeroFilled(w, i < 0, s);
    SignedMagnitude(i);
    DecRoundTrip(k, Abs(i), i < 0, out);
  }

  /** The format "%0wd". */
  ghost function ZeroFormat(w: nat): string {
    ['%'] + (SpecText(Written(false, true, Given(w), None)) + "d")
  }

  /** What the format "%0wd" emits. */
  lemma ZeroFormatConverts(w: nat, mem: Memory)
    ensures Format(ZeroFormat(w), mem, 0) == Convert('d', Spec(false, '0', Wrap(w), 0), mem.args(0), mem)
  {
    assert ['d'] + "" == "d";
    FormatConversion(Written(false, true, Given(w), None), 'd', "", mem, 0);
    assert Format("", mem, 1) == [];
  }

  /** For any int i and a width w below 2^31, the format "%0wd" emits max(w, digits + sign)
      characters, and stod reads them back as i. */
  lemma DecimalRoundTrip(w: nat, i: Int32, mem: Memory)
    requires w < 0x8000_0000 && mem.args(0) == i
    ensures ReadsBack(Format(ZeroFormat(w), mem, 0), w, i)
  {
    ZeroFormatConverts(w, mem);
    SmallIsItself(w);
    ConvertDecimal(w, i, mem);
    ZeroFilledReadsBack(w, i, Convert('d', Spec(false, '0', w, 0), i, mem));
  }

  // ----- every conversion, in terms of its argument -----

  /** The characters that stand for the argument: numerals of the signed or unsigned word in the base
      of the conversion, its low byte, the string that it points to, or the first character of
      that. */
  ghost predicate StandsFor(text: string, c: char, word: Int32, mem: Memory) {
    match c
    case 'd' => IsNumeral(text, Abs(word), 10, false)
    case 'u' => IsNumeral(text, word % 0x1_0000_0000, 10, false)
    case 'o' => IsNumeral(text, word % 0x1_0000_0000, 8, false)
    case 'x' => IsNumeral(text, word % 0x1_0000_0000, 16, false)
    case 'X' => IsNumeral(text, word % 0x1_0000_0000, 16, true)
    case 'c' => text == [(word % 0x100) as char]
    case 's' => text == mem.text(word)
    case _ => text == [if mem.text(word) == "" then '\0' else mem.text(word)[0]]
  }

  /** What the field keeps of it: a positive precision cuts it, a negative one leaves nothing, and
      some conversions know no precision. */
  ghost predicate KeepsOf(kept: string, text: string, c: char, precision: Int32) {
    if c in {'d', 'o', 'x', 'X', 'c'} || precision == 0 then kept == text
    else if precision < 0 then kept == []
    else kept == text[..if precision < |text| then precision else |text|]
  }

  /** The number of fill characters: what the width leaves, in the 32-bit arithmetic of the source,
      where a negative precision counts as a length. */
  function PadOf(c: char, width: Int32, precision: Int32, kept: nat, negative: bool): nat {
    var length := if c !in {'d', 'o', 'x', 'X', 'c'} && precision < 0 then precision else kept;
    if width == 0 then 0 else NonNegative(Wrap(width - length - SignWidth(negative)))
  }

  lemma TextStandsFor(c: char, word: Int32, mem: Memory)
    ensures StandsFor(FieldText(c, word, mem), c, word, mem)
    ensures c != 's' ==> |FieldText(c, word, mem)| <= 11
  {
    match c {
      case 'd' =>
        Magnitude(word);
        NumeralFits(Abs(word), 10, false);
        NumeralExact(Abs(word), 10, false);
      case 'u' => NumberExact(word % U32, 10, false);
      case 'o' => NumberExact(word % U32, 8, false);
      case 'x' => NumberExact(word % U32, 16, false);
      case 'X' => NumberExact(word % U32, 16, true);
      case _ =>
    }
  }

  lemma NumberExact(n: nat, base: nat, upper: bool)
    requires 8 <= base <= 16 && n < U32
    ensures var s := Numeral(n, base, upper); IsNumeral(s, n, base, upper) && |s| <= 11
  {
    NumeralFits(n, base, upper);
    NumeralExact(n, base, upper);
  }

  lemma FieldKeeps(c: char, spec: Spec, text: string)
    requires |text| < 0x8000_0000
    ensures var field := FieldSpec(c, spec);
            && KeepsOf(Kept(field, text), text, c, spec.fmax)
            && field.leftjust == spec.leftjust && field.fmin == spec.fmin
            && field.fill == (if c in {'c', 's'} then ' ' else spec.fill)
  {
    var field := FieldSpec(c, spec);
    assert text[..|text|] == text;
  }

  lemma FieldPads(c: char, spec: Spec, text: string, negative: bool)
    requires |text| < 0x8000_0000 && (negative ==> c == 'd')
    ensures var field := FieldSpec(c, spec);
            NonNegative(Leading(field, negative, Length(field, text))) ==
            PadOf(c, spec.fmin, spec.fmax, |Kept(field, text)|, negative)
  {
    var field := FieldSpec(c, spec);
    LeadingIs(field, negative, Length(field, text));
  }

  /** Every conversion as it is written, with any flags, width and precision: its field holds what
      stands for the argument, cut to the precision and filled to the width, and the rest of the
      format follows with the arguments left. */
  lemma ConversionEmits(w: Written, c: char, rest: string, mem: Memory, arg: nat)
      returns (field: string, text: string, kept: string)
    requires Plain(w) && Ends([c] + rest) && (c == '%' ==> SpecText(w) != "")
    requires c == 's' ==> |mem.text(mem.args(SpecOf(w, mem, arg).1))| < 0x8000_0000
    ensures var (spec, next) := SpecOf(w, mem, arg);
            var word := mem.args(next);
            var negative := c == 'd' && word < 0;
            && Format(['%'] + (SpecText(w) + ([c] + rest)), mem, arg) == field + Format(rest, mem, next + 1)
            && StandsFor(text, c, word, mem) && KeepsOf(kept, text, c, spec.fmax)
            && IsField(field, Spec(w.leftjust, if w.zero && c != 'c' && c != 's' then '0' else ' ', 0, 0), negative,
                       kept, PadOf(c, spec.fmin, spec.fmax, |kept|, negative))
  {
    var (spec, next) := SpecOf(w, mem, arg);
    var word := mem.args(next);
    field, text := Convert(c, spec, word, mem), FieldText(c, word, mem);
    kept := Kept(FieldSpec(c, spec), text);
    FormatConversion(w, c, rest, mem, arg);
    TextStandsFor(c, word, mem);
    FieldKeeps(c, spec, text);
    FieldPads(c, spec, text, c == 'd' && word < 0);
    ConversionIsField(c, spec, word, mem);
  }

  const NO_SPEC := Written(false, false, Absent, None)

  /** Without flags, width and precision: the sign and what stands for the argument. */
  lemma BareConversion(c: char, rest: string, mem: Memory, arg: nat) returns (text: string)
    requires Ends([c]) && c != '%' && (c == 's' ==> |mem.text(mem.args(arg))| < 0x8000_0000)
    ensures StandsFor(text, c, mem.args(arg), mem)
    ensures Format(['%', c] + rest, mem, arg) ==
            (if c == 'd' && mem.args(arg) < 0 then ['-'] else []) + text + Format(rest, mem, arg + 1)
  {
    hide *;
    var word := mem.args(arg);
    var negative := c == 'd' && word < 0;
    BareWritten(c, rest, mem, arg);
    var field, text', kept := ConversionEmits(NO_SPEC, c, rest, mem, arg);
    text := text';
    BareKept(kept, text, c, negative);
    BareIs(field, Spec(NO_SPEC.leftjust, if NO_SPEC.zero && c != 'c' && c != 's' then '0' else ' ', 0, 0),
           negative, kept, PadOf(c, 0, 0, |kept|, negative));
  }

  lemma BareWritten(c: char, rest: string, mem: Memory, arg: nat)
    requires Ends([c])
    ensures Plain(NO_SPEC) && SpecText(NO_SPEC) == "" && Ends([c] + rest) && !NO_SPEC.leftjust && !NO_SPEC.zero
    ensures SpecOf(NO_SPEC, mem, arg) == (Spec(false, ' ', 0, 0), arg)
    ensures ['%', c] + rest == ['%'] + (SpecText(NO_SPEC) + ([c] + rest))
  {
  }

  lemma BareKept(kept: string, text: string, c: char, negative: bool)
    requires KeepsOf(kept, text, c, 0)
    ensures kept == text && PadOf(c, 0, 0, |kept|, negative) == 0
  {
  }

  lemma BareIs(field: string, spec: Spec, negative: bool, kept: string, pad: nat)
    requires IsField(field, spec, negative, kept, pad) && spec == Spec(false, ' ', 0, 0) && pad == 0
    ensures field == (if negative then ['-'] else []) + kept
  {
  }

  /** stod reads "%d" and "%u" back as the word itself, and so it does "%x" and "%X" behind the
      mark of a hexadecimal number. */
  lemma PrintThenRead(c: char, mem: Memory)
    requires c in {'d', 'u', 'x', 'X'}
    ensures Stod((if c in {'x', 'X'} then "0x" else "") + Format(['%', c], mem, 0)) == mem.args(0)
  {
    hide *;
    BareEnds(c);
    BareWritten(c, "", mem, 0);
    FormatConversion(NO_SPEC, c, "", mem, 0);
    FormatEnd(mem, 1);
    assert ['%', c] + "" == ['%', c];
    assert Convert(c, Spec(false, ' ', 0, 0), mem.args(0), mem) + "" ==
           Convert(c, Spec(false, ' ', 0, 0), mem.args(0), mem);
    BareField(c, mem.args(0), mem);
    BareReads(c, mem.args(0));
  }

  lemma BareEnds(c: char)
    requires c in {'d', 'u', 'x', 'X'}
    ensures Ends([c])
  {
  }

  lemma FormatEnd(mem: Memory, arg: nat)
    ensures Format("", mem, arg) == ""
  {
  }

  /** What they print without flags, width and precision. */
  ghost function BareText(c: char, word: Int32): string
  {
    if c == 'd' then (if word < 0 then ['-'] else []) + Numeral(Abs(word), 10, false)
    else Numeral(word % U32, if c == 'u' then 10 else 16, c == 'X')
  }

  lemma BareReads(c: char, word: Int32)
    requires c in {'d', 'u', 'x', 'X'}
    ensures Stod((if c in {'x', 'X'} then "0x" else "") + BareText(c, word)) == word
  {
    hide Stod, Wrap, Numeral;
    SignedMagnitude(word);
    UnsignedMagnitude(word);
    if c == 'd' {
      BareDecimal(Abs(word), word < 0);
    } else if c == 'u' {
      BareDecimal(word % U32, false);
      assert [] + Numeral(word % U32, 10, false) == Numeral(word % U32, 10, false);
    } else {
      BareHex(word % U32, c == 'X');
    }
  }

  lemma UnsignedMagnitude(word: Int32)
    ensures Wrap(word % U32) == word
    ensures word < 0 ==> Wrap(0 - Abs(word)) == word
  {
  }

  lemma BareHex(n: nat, upper: bool)
    ensures Stod("0x" + Numeral(n, 16, upper)) == Wrap(n)
  {
    HexRoundTrip(n, upper, 'x', "0x" + Numeral(n, 16, upper));
  }

  lemma BareDecimal(n: nat, negative: bool)
    ensures Stod("" + ((if negative then ['-'] else []) + Numeral(n, 10, false))) == if negative then Wrap(0 - n)
            else Wrap(n)
  {
    var s := Numeral(n, 10, false);
    var out := (if negative then ['-'] else []) + s;
    assert "" + out == out && Repeat('0', 0) + s == s && [] + s == s;
    DecRoundTrip(0, n, negative, out);
  }

  lemma BareField(c: char, word: Int32, mem: Memory)
    requires c in {'d', 'u', 'x', 'X'}
    ensures Convert(c, Spec(false, ' ', 0, 0), word, mem) == BareText(c, word)
  {
    var text := FieldText(c, word, mem);
    Magnitude(word);
    TextStandsFor(c, word, mem);
    BareLayout(c == 'd' && word < 0, text);
    assert FieldSpec(c, Spec(false, ' ', 0, 0)) == Spec(false, ' ', 0, 0);
    assert [] + text == text;
  }

  lemma BareLayout(negative: bool, text: string)
    requires |text| <= 11
    ensures Layout(Spec(false, ' ', 0, 0), negative, text) == (if negative then ['-'] else []) + text
  {
    assert text[..|text|] == text;
  }
}
