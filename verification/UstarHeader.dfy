/** One 512-byte header of the ustar interchange format: its octal and text fields, its checksum,
    and a writer whose headers are read back. */
module UstarHeader {
  import opened Results
  import opened Bytes
  import opened Sequences

  const BLOCK: nat := 512

  datatype TarError =
    | MissingEnd | NotTwoEndBlocks | OneEndBlock | TooManyMembers | NotUstar | NotOctal | BadChecksum
    | ForbiddenType | HasLinkTarget | BadText | EmptyName | BadPath | Duplicate | TooLarge | Truncated | DirtyPadding

  /** What is left open about paths: which byte strings are text, how a member path is normalised
      (or refused), and the key under which portable file systems would confuse two paths. */
  datatype PathRules = PathRules(
    isText: seq<Byte> -> bool,
    normalise: seq<Byte> -> Option<seq<Byte>>,
    portableKey: seq<Byte> -> seq<Byte>)

  datatype MemberPath = MemberPath(raw: seq<Byte>, normalised: seq<Byte>, key: seq<Byte>)

  function Zeros(n: nat): seq<Byte> { seq(n, _ => 0 as Byte) }

  predicate AllZero(s: seq<Byte>) { forall i :: 0 <= i < |s| ==> s[i] == 0 }

  /// ---------------------------------------------------------------- octal fields

  predicate IsPad(b: Byte) { b == 0 || b == 32 }

  predicate IsOctalDigit(b: Byte) { 48 <= b <= 55 }

  function StripRight(field: seq<Byte>): seq<Byte> {
    if field != [] && IsPad(field[|field|-1]) then StripRight(field[..|field|-1]) else field
  }

  function StripLeft(field: seq<Byte>): seq<Byte> {
    if field != [] && field[0] == 32 then StripLeft(field[1..]) else field
  }

  function OctalValue(digits: seq<Byte>): nat
    requires forall i :: 0 <= i < |digits| ==> IsOctalDigit(digits[i])
  {
    if digits == [] then 0
    else
      assert IsOctalDigit(digits[|digits|-1]);
      8 * OctalValue(digits[..|digits|-1]) + (digits[|digits|-1] - 48)
  }

  predicate IsOctal(digits: seq<Byte>) {
    digits != [] && forall i :: 0 <= i < |digits| ==> IsOctalDigit(digits[i])
  }

  function ParseOctal(field: seq<Byte>): Option<nat> {
    if field != [] && field[0] >= 128 then None
    else
      var stripped := StripLeft(StripRight(field));
      if !IsOctal(stripped) then None else Some(OctalValue(stripped))
  }

  /** A field reads as a number when it is spaces, octal digits, then NULs and spaces. */
  ghost predicate IsOctalField(field: seq<Byte>, leading: nat, digits: seq<Byte>) {
    && leading + |digits| <= |field| && IsOctal(digits)
    && (forall i :: 0 <= i < leading ==> field[i] == 32)
    && field[leading..leading + |digits|] == digits
    && (forall i :: leading + |digits| <= i < |field| ==> IsPad(field[i]))
  }

  lemma {:induction false} StripRightIs(field: seq<Byte>, n: nat)
    requires n <= |field| && (n > 0 ==> !IsPad(field[n-1])) && forall i :: n <= i < |field| ==> IsPad(field[i])
    ensures StripRight(field) == field[..n]
  {
    if n < |field| {
      StripRightIs(field[..|field|-1], n);
      assert field[..|field|-1][..n] == field[..n];
    }
  }

  lemma {:induction false} StripLeftIs(field: seq<Byte>, n: nat)
    requires n <= |field| && (n < |field| ==> field[n] != 32) && forall i :: 0 <= i < n ==> field[i] == 32
    ensures StripLeft(field) == field[n..]
  {
    if n > 0 {
      StripLeftIs(field[1..], n - 1);
    }
  }

  lemma {:induction false} StripRightSplits(field: seq<Byte>) returns (n: nat)
    ensures n <= |field| && StripRight(field) == field[..n]
    ensures forall i :: n <= i < |field| ==> IsPad(field[i])
  {
    if field != [] && IsPad(field[|field|-1]) {
      n := StripRightSplits(field[..|field|-1]);
      assert field[..|field|-1][..n] == field[..n];
      forall i | n <= i < |field| ensures IsPad(field[i]) {
        if i < |field| - 1 { assert field[..|field|-1][i] == field[i]; }
      }
    } else {
      n := |field|;
    }
  }

  lemma {:induction false} StripLeftSplits(field: seq<Byte>) returns (n: nat)
    ensures n <= |field| && StripLeft(field) == field[n..]
    ensures forall i :: 0 <= i < n ==> field[i] == 32
  {
    if field != [] && field[0] == 32 {
      var m := StripLeftSplits(field[1..]);
      n := m + 1;
      forall i | 0 <= i < n ensures field[i] == 32 {
        if i > 0 { assert field[1..][i-1] == field[i]; }
      }
    } else {
      n := 0;
    }
  }

  /** Octal fields in both directions: what is accepted, and its value. */
  lemma ParseOctalIff(field: seq<Byte>, value: nat)
    ensures ParseOctal(field) == Some(value) <==>
            exists leading: nat, digits :: IsOctalField(field, leading, digits) && OctalValue(digits) == value
  {
    if ParseOctal(field) == Some(value) {
      var n := StripRightSplits(field);
      var k := StripLeftSplits(field[..n]);
      var digits := StripLeft(StripRight(field));
      assert field[k..k + |digits|] == digits;
      assert IsOctalField(field, k, digits);
    }
    forall leading: nat, digits | IsOctalField(field, leading, digits)
      ensures ParseOctal(field) == Some(OctalValue(digits))
    {
      OctalFieldParses(field, leading, digits);
    }
  }

  lemma OctalFieldParses(field: seq<Byte>, leading: nat, digits: seq<Byte>)
    requires IsOctalField(field, leading, digits)
    ensures ParseOctal(field) == Some(OctalValue(digits))
  {
    var n := leading + |digits|;
    assert field[leading] == digits[0];
    assert field[n-1] == digits[|digits|-1];
    StripRightIs(field, n);
    StripLeftIs(field[..n], leading);
    assert field[..n][leading..] == digits;
  }

  /// ---------------------------------------------------------------- text fields

  function UpToNul(field: seq<Byte>): seq<Byte> {
    if field == [] || field[0] == 0 then [] else [field[0]] + UpToNul(field[1..])
  }

  lemma {:induction false} UpToNulPrefix(field: seq<Byte>)
    ensures UpToNul(field) <= field && (forall i :: 0 <= i < |UpToNul(field)| ==> field[i] != 0)
    ensures |UpToNul(field)| < |field| ==> field[|UpToNul(field)|] == 0
  {
    if field != [] && field[0] != 0 { UpToNulPrefix(field[1..]); }
  }

  function DecodeText(field: seq<Byte>, rules: PathRules): Option<seq<Byte>> {
    var value := UpToNul(field);
    UpToNulPrefix(field);
    if AllZero(field[|value|..]) && rules.isText(value) then Some(value) else None
  }

  lemma {:induction false} UpToNulPadded(value: seq<Byte>, n: nat)
    requires forall i :: 0 <= i < |value| ==> value[i] != 0
    ensures UpToNul(value + Zeros(n)) == value
  {
    if value == [] {
      assert value + Zeros(n) == Zeros(n);
    } else {
      UpToNulPadded(value[1..], n);
      assert (value + Zeros(n))[1..] == value[1..] + Zeros(n);
    }
  }

  /** A text field is a text without NUL, padded with NULs. */
  lemma DecodeTextIff(field: seq<Byte>, value: seq<Byte>, rules: PathRules)
    ensures DecodeText(field, rules) == Some(value) <==>
            && |value| <= |field| && field == value + Zeros(|field| - |value|)
            && rules.isText(value) && forall i :: 0 <= i < |value| ==> value[i] != 0
  {
    if DecodeText(field, rules) == Some(value) {
      UpToNulPrefix(field);
      assert field[|value|..] == Zeros(|field| - |value|);
      assert field == field[..|value|] + field[|value|..];
    }
    if
      && |value| <= |field| && field == value + Zeros(|field| - |value|)
      && forall i :: 0 <= i < |value| ==> value[i] != 0
    {
      UpToNulPadded(value, |field| - |value|);
      assert field[|value|..] == Zeros(|field| - |value|);
    }
  }

  /// ---------------------------------------------------------------- the header

  /** The sum of all header bytes, the checksum field taken as spaces. */
  function Checksum(header: seq<Byte>): nat
    requires |header| == BLOCK
  {
    Total(header[..148]) + 8 * 32 + Total(header[156..])
  }

  /// "ustar", NUL, "00"
  function Magic(): seq<Byte> { [117, 115, 116, 97, 114, 0, 48, 48] }

  function JoinPath(prefix: seq<Byte>, name: seq<Byte>): seq<Byte> {
    if prefix == [] then name else prefix + [47] + name
  }

  /** The header checks up to the member's path, in order. */
  function CheckHeader(header: seq<Byte>, rules: PathRules): Result<MemberPath, TarError>
    requires |header| == BLOCK
  {
    if header[257..265] != Magic() then Err(NotUstar)
    else if ParseOctal(header[148..156]) == None then Err(NotOctal)
    else if ParseOctal(header[148..156]) != Some(Checksum(header)) then Err(BadChecksum)
    else if header[156] != 48 then Err(ForbiddenType)
    else if !AllZero(header[157..257]) then Err(HasLinkTarget)
    else
      var name, prefix := DecodeText(header[0..100], rules), DecodeText(header[345..500], rules);
      if name == None || prefix == None then Err(BadText)
      else if name.value == [] then Err(EmptyName)
      else PathOf(JoinPath(prefix.value, name.value), rules)
  }

  function PathOf(raw: seq<Byte>, rules: PathRules): Result<MemberPath, TarError> {
    match rules.normalise(raw)
    case None => Err(BadPath)
    case Some(normalised) => Ok(MemberPath(raw, normalised, rules.portableKey(normalised)))
  }

  function SizeOf(header: seq<Byte>): Option<nat>
    requires |header| == BLOCK
  {
    ParseOctal(header[124..136])
  }

  /// ---------------------------------------------------------------- writing headers

  /** A header to be written; the fields the scan does not read may hold anything. */
  datatype Fields = Fields(name: seq<Byte>, prefix: seq<Byte>, size: nat,
                           owner: seq<Byte>, mtime: seq<Byte>, origin: seq<Byte>, tail: seq<Byte>) {
    predicate Shaped() {
      && |name| <= 100 && |prefix| <= 155
      && |owner| == 24 && |mtime| == 12 && |origin| == 80 && |tail| == 12
    }

    /** The size fits eleven octal digits as well. */
    predicate Fits() { Shaped() && size < Power8(11) }

    function Front(): seq<Byte>
      requires Shaped()
    {
      Padded(name, 100) + owner + (OctalDigits(size, 11) + [0]) + mtime
    }

    function Back(): seq<Byte>
      requires Shaped()
    {
      [48] + Zeros(100) + Magic() + origin + Padded(prefix, 155) + tail
    }

    function Write(): seq<Byte>
      requires Shaped()
    {
      Sealed(Front(), Back())
    }
  }

  /** The two parts of a header with its checksum between them. */
  function Sealed(front: seq<Byte>, back: seq<Byte>): seq<Byte> {
    front + (OctalDigits(Total(front) + 8 * 32 + Total(back), 6) + [0, 32]) + back
  }

  function Power8(n: nat): nat { if n == 0 then 1 else 8 * Power8(n - 1) }

  function Padded(value: seq<Byte>, width: nat): (field: seq<Byte>)
    requires |value| <= width
    ensures |field| == width
  {
    value + Zeros(width - |value|)
  }

  function OctalDigits(n: nat, width: nat): (digits: seq<Byte>)
    ensures |digits| == width && forall i :: 0 <= i < |digits| ==> IsOctalDigit(digits[i])
  {
    if width == 0 then [] else OctalDigits(n / 8, width - 1) + [(48 + n % 8) as Byte]
  }

  lemma {:induction false} OctalDigitsValue(n: nat, width: nat)
    requires n < Power8(width)
    ensures OctalValue(OctalDigits(n, width)) == n
  {
    if width > 0 {
      OctalDigitsValue(n / 8, width - 1);
      assert OctalDigits(n, width)[..width-1] == OctalDigits(n / 8, width - 1);
    }
  }

  lemma {:induction false} SumBound(s: seq<Byte>)
    ensures Total(s) <= 255 * |s|
  {
    if s != [] { SumBound(s[..|s|-1]); }
  }

  lemma WrittenOctalParses(n: nat, width: nat, padding: seq<Byte>)
    requires 0 < width && n < Power8(width) && forall i :: 0 <= i < |padding| ==> IsPad(padding[i])
    ensures ParseOctal(OctalDigits(n, width) + padding) == Some(n)
  {
    var digits := OctalDigits(n, width);
    OctalDigitsValue(n, width);
    assert (digits + padding)[0..0 + |digits|] == digits;
    assert IsOctalField(digits + padding, 0, digits);
    OctalFieldParses(digits + padding, 0, digits);
  }

  /** A field of a header, seen through the part of the header it lies in. */
  lemma FieldOfFront(front: seq<Byte>, middle: seq<Byte>, back: seq<Byte>, from: nat, to: nat)
    requires from <= to <= |front|
    ensures (front + middle + back)[from..to] == front[from..to]
  {
  }

  lemma FieldOfBack(front: seq<Byte>, middle: seq<Byte>, back: seq<Byte>, from: nat, to: nat)
    requires from <= to <= |back|
    ensures var n := |front| + |middle|;
            (front + middle + back)[n + from..n + to] == back[from..to]
  {
  }

  lemma Between(before: seq<Byte>, field: seq<Byte>, after: seq<Byte>)
    ensures (before + field + after)[|before|..|before| + |field|] == field
  {
  }

  lemma FrontFields(f: Fields)
    requires f.Shaped()
    ensures |f.Front()| == 148
    ensures f.Front()[0..100] == Padded(f.name, 100)
    ensures f.Front()[124..136] == OctalDigits(f.size, 11) + [0]
  {
    FrontParts(Padded(f.name, 100), f.owner, OctalDigits(f.size, 11) + [0], f.mtime);
  }

  lemma FrontParts(name: seq<Byte>, owner: seq<Byte>, size: seq<Byte>, mtime: seq<Byte>)
    requires |name| == 100 && |owner| == 24 && |size| == 12 && |mtime| == 12
    ensures var front := name + owner + size + mtime;
            |front| == 148 && front[0..100] == name && front[124..136] == size
  {
    var front := name + owner + size + mtime;
    Between([], name, owner + size + mtime);
    assert [] + name + (owner + size + mtime) == front;
    Between(name + owner, size, mtime);
  }

  lemma BackFields(f: Fields)
    requires f.Shaped()
    ensures |f.Back()| == 356
    ensures f.Back()[0] == 48
    ensures f.Back()[1..101] == Zeros(100)
    ensures f.Back()[101..109] == Magic()
    ensures f.Back()[189..344] == Padded(f.prefix, 155)
  {
    var prefix := Padded(f.prefix, 155);
    Between([48], Zeros(100), Magic() + f.origin + prefix + f.tail);
    assert [48] + Zeros(100) + (Magic() + f.origin + prefix + f.tail) == f.Back();
    Between([48] + Zeros(100), Magic(), f.origin + prefix + f.tail);
    assert [48] + Zeros(100) + Magic() + (f.origin + prefix + f.tail) == f.Back();
    Between([48] + Zeros(100) + Magic() + f.origin, prefix, f.tail);
  }

  lemma ChecksumFits(front: seq<Byte>, back: seq<Byte>)
    requires |front| == 148 && |back| == 356
    ensures Total(front) + 8 * 32 + Total(back) < Power8(6)
  {
    SumBound(front);
    SumBound(back);
    assert Power8(6) == 262144;
  }

  predicate NoNul(value: seq<Byte>) { forall i :: 0 <= i < |value| ==> value[i] != 0 }

  /** The fields of a header in their places. */
  lemma AssembledFields(front: seq<Byte>, middle: seq<Byte>, back: seq<Byte>)
    requires |front| == 148 && |middle| == 8 && |back| == 356
    ensures var header := front + middle + back;
            && header[0..100] == front[0..100] && header[124..136] == front[124..136]
            && header[148..156] == middle
            && header[157..257] == back[1..101] && header[257..265] == back[101..109]
            && header[345..500] == back[189..344]
  {
    Between(front, middle, back);
    FieldOfFront(front, middle, back, 0, 100);
    FieldOfFront(front, middle, back, 124, 136);
    FieldOfBack(front, middle, back, 1, 101);
    FieldOfBack(front, middle, back, 101, 109);
    FieldOfBack(front, middle, back, 189, 344);
  }

  /** A written header is accepted, and its member is read back. */
  lemma WrittenHeaderReads(f: Fields, rules: PathRules)
    requires f.Fits() && NoNul(f.name) && NoNul(f.prefix) && rules.isText(f.name) && rules.isText(f.prefix)
    requires f.name != []
    ensures |f.Write()| == BLOCK && SizeOf(f.Write()) == Some(f.size)
    ensures CheckHeader(f.Write(), rules) == PathOf(JoinPath(f.prefix, f.name), rules)
  {
    FrontFields(f);
    BackFields(f);
    SealedReads(f, f.Front(), f.Back(), rules);
  }

  lemma SealedReads(f: Fields, front: seq<Byte>, back: seq<Byte>, rules: PathRules)
    requires f.Fits() && NoNul(f.name) && NoNul(f.prefix) && rules.isText(f.name) && rules.isText(f.prefix)
    requires f.name != []
    requires |front| == 148 && front[0..100] == Padded(f.name, 100) && front[124..136] == OctalDigits(f.size, 11) + [0]
    requires |back| == 356 && back[0] == 48 && back[1..101] == Zeros(100) && back[101..109] == Magic()
    requires back[189..344] == Padded(f.prefix, 155)
    ensures |Sealed(front, back)| == BLOCK && SizeOf(Sealed(front, back)) == Some(f.size)
    ensures CheckHeader(Sealed(front, back), rules) == PathOf(JoinPath(f.prefix, f.name), rules)
  {
    WrittenOctalParses(f.size, 11, [0]);
    DecodePadded(f.name, 100, rules);
    DecodePadded(f.prefix, 155, rules);
    AssembledReads(front, back, f.name, f.prefix, rules);
  }

  lemma AssembledReads(front: seq<Byte>, back: seq<Byte>, name: seq<Byte>, prefix: seq<Byte>, rules: PathRules)
    requires |front| == 148 && |back| == 356 && name != []
    requires back[0] == 48 && back[1..101] == Zeros(100) && back[101..109] == Magic()
    requires DecodeText(front[0..100], rules) == Some(name) && DecodeText(back[189..344], rules) == Some(prefix)
    ensures var header := Sealed(front, back);
            && |header| == BLOCK && SizeOf(header) == ParseOctal(front[124..136])
            && CheckHeader(header, rules) == PathOf(JoinPath(prefix, name), rules)
  {
    var sum := Total(front) + 8 * 32 + Total(back);
    var middle := OctalDigits(sum, 6) + [0, 32];
    ChecksumFits(front, back);
    WrittenOctalParses(sum, 6, [0, 32]);
    AssembledFields(front, middle, back);
    ChecksumOf(front, middle, back);
    FieldsRead(front + middle + back, name, prefix, sum, rules);
  }

  lemma ChecksumOf(front: seq<Byte>, middle: seq<Byte>, back: seq<Byte>)
    requires |front| == 148 && |middle| == 8 && |back| == 356
    ensures Checksum(front + middle + back) == Total(front) + 8 * 32 + Total(back)
    ensures (front + middle + back)[156] == back[0]
  {
    var header := front + middle + back;
    assert header[..148] == front;
    assert header[156..] == back;
  }

  lemma DecodePadded(value: seq<Byte>, width: nat, rules: PathRules)
    requires |value| <= width && NoNul(value) && rules.isText(value)
    ensures DecodeText(Padded(value, width), rules) == Some(value)
  {
    DecodeTextIff(Padded(value, width), value, rules);
  }

  lemma FieldsRead(header: seq<Byte>, name: seq<Byte>, prefix: seq<Byte>, sum: nat, rules: PathRules)
    requires |header| == BLOCK && name != []
    requires ParseOctal(header[148..156]) == Some(sum) && Checksum(header) == sum
    requires header[156] == 48 && header[157..257] == Zeros(100) && header[257..265] == Magic()
    requires DecodeText(header[0..100], rules) == Some(name) && DecodeText(header[345..500], rules) == Some(prefix)
    ensures CheckHeader(header, rules) == PathOf(JoinPath(prefix, name), rules)
  {
    assert AllZero(Zeros(100));
  }

  /// ---------------------------------------------------------------- what an accepted header is

  /** A field that holds a number: spaces, octal digits, then NULs and spaces. */
  ghost predicate Holds(field: seq<Byte>, value: nat) {
    exists leading: nat, digits :: IsOctalField(field, leading, digits) && OctalValue(digits) == value
  }

  /** A text without NUL, padded with NULs. */
  predicate IsPadded(field: seq<Byte>, value: seq<Byte>) {
    |value| <= |field| && field == value + Zeros(|field| - |value|) && NoNul(value)
  }

  /** The sum of the bytes of a header whose checksum field is blank. */
  function BlankedSum(header: seq<Byte>): nat
    requires |header| == BLOCK
  {
    Total(header[..148] + [32, 32, 32, 32, 32, 32, 32, 32] + header[156..])
  }

  /** The header of a regular file of this name, prefix and size. */
  ghost predicate IsFileHeader(header: seq<Byte>, name: seq<Byte>, prefix: seq<Byte>, size: nat, rules: PathRules)
    requires |header| == BLOCK
  {
    && IsPadded(header[0..100], name) && name != [] && rules.isText(name)
    && Holds(header[124..136], size) && Holds(header[148..156], BlankedSum(header))
    && header[156] == '0' as nat && header[157..257] == Zeros(100)
    && header[257..265] == ['u' as nat, 's' as nat, 't' as nat, 'a' as nat, 'r' as nat, 0, '0' as nat, '0' as nat]
    && IsPadded(header[345..500], prefix) && rules.isText(prefix)
  }

  /** The path such a header gives, if the rules take it. */
  ghost predicate IsPathOf(path: MemberPath, name: seq<Byte>, prefix: seq<Byte>, rules: PathRules) {
    && path.raw == (if |prefix| == 0 then name else prefix + ['/' as nat] + name)
    && rules.normalise(path.raw) == Some(path.normalised) && path.key == rules.portableKey(path.normalised)
  }

  lemma BlankedSumIs(header: seq<Byte>)
    requires |header| == BLOCK
    ensures BlankedSum(header) == Checksum(header)
  {
    var blanks: seq<Byte> := [32, 32, 32, 32, 32, 32, 32, 32];
    TotalJoin(header[..148] + blanks, header[156..]);
    TotalJoin(header[..148], blanks);
    EightBlanks();
  }

  lemma EightBlanks()
    ensures Total([32, 32, 32, 32, 32, 32, 32, 32]) == 256
  {
    var one: seq<nat> := [32];
    assert Total(one) == 32 by { assert one[..0] == []; }
    var two := one + one;
    var four := two + two;
    TotalJoin(one, one);
    TotalJoin(two, two);
    TotalJoin(four, four);
    assert four + four == [32, 32, 32, 32, 32, 32, 32, 32];
  }

  lemma {:induction false} TotalJoin(a: seq<nat>, b: seq<nat>)
    ensures Total(a + b) == Total(a) + Total(b)
  {
    if b == [] {
      assert a + b == a;
    } else {
      assert (a + b)[..|a + b|-1] == a + b[..|b|-1];
      TotalJoin(a, b[..|b|-1]);
    }
  }

  /** Which headers are accepted, with which size and path: those of regular files, and their own. */
  lemma AcceptedIff(header: seq<Byte>, path: MemberPath, size: nat, rules: PathRules)
    requires |header| == BLOCK
    ensures CheckHeader(header, rules) == Ok(path) && SizeOf(header) == Some(size) <==>
            exists name, prefix ::
              IsFileHeader(header, name, prefix, size, rules) && IsPathOf(path, name, prefix, rules)
  {
    if CheckHeader(header, rules) == Ok(path) && SizeOf(header) == Some(size) {
      var name, prefix := AcceptedIsFile(header, path, size, rules);
    }
    forall name, prefix | IsFileHeader(header, name, prefix, size, rules) && IsPathOf(path, name, prefix, rules)
      ensures CheckHeader(header, rules) == Ok(path) && SizeOf(header) == Some(size)
    {
      FileIsAccepted(header, name, prefix, path, size, rules);
    }
  }

  lemma AcceptedIsFile(header: seq<Byte>, path: MemberPath, size: nat, rules: PathRules)
    returns (name: seq<Byte>, prefix: seq<Byte>)
    requires |header| == BLOCK && CheckHeader(header, rules) == Ok(path) && SizeOf(header) == Some(size)
    ensures IsFileHeader(header, name, prefix, size, rules) && IsPathOf(path, name, prefix, rules)
  {
    BlankedSumIs(header);
    ParseOctalIff(header[124..136], size);
    ParseOctalIff(header[148..156], Checksum(header));
    name, prefix := AcceptedTexts(header, path, rules);
    ZerosAre(header[157..257]);
  }

  lemma FileIsAccepted(header: seq<Byte>, name: seq<Byte>, prefix: seq<Byte>, path: MemberPath, size: nat,
                       rules: PathRules)
    requires |header| == BLOCK
    requires IsFileHeader(header, name, prefix, size, rules) && IsPathOf(path, name, prefix, rules)
    ensures CheckHeader(header, rules) == Ok(path) && SizeOf(header) == Some(size)
  {
    BlankedSumIs(header);
    ParseOctalIff(header[124..136], size);
    ParseOctalIff(header[148..156], Checksum(header));
    DecodeTextIff(header[0..100], name, rules);
    DecodeTextIff(header[345..500], prefix, rules);
    FieldsRead(header, name, prefix, Checksum(header), rules);
  }

  lemma AcceptedTexts(header: seq<Byte>, path: MemberPath, rules: PathRules)
    returns (name: seq<Byte>, prefix: seq<Byte>)
    requires |header| == BLOCK && CheckHeader(header, rules) == Ok(path)
    ensures IsPadded(header[0..100], name) && name != [] && rules.isText(name)
    ensures IsPadded(header[345..500], prefix) && rules.isText(prefix)
    ensures IsPathOf(path, name, prefix, rules)
  {
    name := DecodeText(header[0..100], rules).value;
    prefix := DecodeText(header[345..500], rules).value;
    DecodeTextIff(header[0..100], name, rules);
    DecodeTextIff(header[345..500], prefix, rules);
  }

  lemma ZerosAre(s: seq<Byte>)
    ensures AllZero(s) <==> s == Zeros(|s|)
  {
  }

  /** An accepted header is a written one, but for how its two numbers are set in their fields. */
  lemma AcceptedIsWritten(header: seq<Byte>, path: MemberPath, size: nat, rules: PathRules) returns (f: Fields)
    requires |header| == BLOCK && CheckHeader(header, rules) == Ok(path) && SizeOf(header) == Some(size)
    ensures f.Shaped() && f.size == size && IsPathOf(path, f.name, f.prefix, rules) && |f.Write()| == BLOCK
    ensures forall i :: 0 <= i < BLOCK && !(124 <= i < 136) && !(148 <= i < 156) ==> header[i] == f.Write()[i]
    ensures Holds(header[124..136], size) && Holds(header[148..156], BlankedSum(header))
  {
    AcceptedIff(header, path, size, rules);
    var name, prefix :| IsFileHeader(header, name, prefix, size, rules) && IsPathOf(path, name, prefix, rules);
    f := Fields(name, prefix, size, header[100..124], header[136..148], header[265..345], header[500..512]);
    WrittenParts(header, f);
  }

  lemma WrittenParts(header: seq<Byte>, f: Fields)
    requires |header| == BLOCK && f.Shaped()
    requires header[0..100] == Padded(f.name, 100) && header[345..500] == Padded(f.prefix, 155)
    requires header[156] == 48 && header[157..257] == Zeros(100) && header[257..265] == Magic()
    requires f.owner == header[100..124] && f.mtime == header[136..148]
    requires f.origin == header[265..345] && f.tail == header[500..512]
    ensures |f.Write()| == BLOCK
    ensures forall i :: 0 <= i < BLOCK && !(124 <= i < 136) && !(148 <= i < 156) ==> header[i] == f.Write()[i]
  {
    var sizeField, written := OctalDigits(f.size, 11) + [0], f.Write();
    assert header[..148] == header[0..100] + header[100..124] + header[124..136] + header[136..148];
    assert f.Front() == header[0..100] + header[100..124] + sizeField + header[136..148];
    assert [header[156]] == [48];
    assert f.Back() == header[156..];
    assert written[..148] == f.Front() && written[156..] == f.Back();
    forall i | 0 <= i < BLOCK && !(124 <= i < 136) && !(148 <= i < 156) ensures header[i] == written[i] {
      if i < 148 {
        assert written[i] == written[..148][i];
      } else {
        assert written[i] == written[156..][i-156] && header[i] == header[156..][i-156];
      }
    }
  }
}
