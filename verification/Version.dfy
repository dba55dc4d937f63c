/** The version strings of src/serviceframework/servicemetadata.cpp and
  src/serviceframework/qservicefilter.cpp: two decimal numbers joined by a dot. */
module Version {
  import opened Text

  const INT_MAX: int := 0x7fff_ffff

  datatype Version = Version(major: int, minor: int)

  // ---------------------------------------------------------------------------------------------
  // Decimal numbers
  // ---------------------------------------------------------------------------------------------

  predicate IsDigit(c: char) {
    '0' <= c <= '9'
  }

  predicate AllDigits(s: string) {
    forall i | 0 <= i < |s| :: IsDigit(s[i])
  }

  /** The number a string of digits denotes. */
  function Number(s: string): nat
    requires AllDigits(s)
  {
    if s == "" then 0 else 10 * Number(s[..|s| - 1]) + (s[|s| - 1] as int - '0' as int)
  }

  /** QString::number. */
  function Decimal(n: nat): (s: string)
    ensures s != ""
  {
    if n < 10 then [('0' as int + n) as char] else Decimal(n / 10) + [('0' as int + n % 10) as char]
  }

  lemma {:induction false} DecimalDigits(n: nat)
    ensures AllDigits(Decimal(n)) && Number(Decimal(n)) == n
    ensures Decimal(n)[0] == '0' <==> n == 0
    ensures n == 0 ==> Decimal(n) == "0"
  {
    var s := Decimal(n);
    if n < 10 {
      assert s[..|s| - 1] == "";
    } else {
      DecimalDigits(n / 10);
      assert s[..|s| - 1] == Decimal(n / 10);
    }
  }

  lemma {:induction false} ZerosAreZero(s: string)
    requires AllDigits(s)
    ensures Number(s) == 0 <==> forall i | 0 <= i < |s| :: s[i] == '0'
  {
    if s != "" {
      var t := s[..|s| - 1];
      ZerosAreZero(t);
      assert forall i | 0 <= i < |t| :: t[i] == s[i];
    }
  }

  // ---------------------------------------------------------------------------------------------
  // The grammar
  // ---------------------------------------------------------------------------------------------

  /** `[1-9][0-9]*` */
  predicate Positive(s: string) {
    s != "" && s[0] != '0' && AllDigits(s)
  }

  /** `0+` */
  predicate Zeros(s: string) {
    s != "" && forall i | 0 <= i < |s| :: s[i] == '0'
  }

  /** `0+|[1-9][0-9]*` */
  predicate Plain(s: string) {
    Zeros(s) || Positive(s)
  }

  predicate Dotted(version: string, positive: bool, i: int)
    requires 0 <= i < |version|
  {
    && version[i] == '.'
    && (if positive then Positive(version[..i]) else Plain(version[..i]))
    && Plain(version[i + 1..])
  }

  lemma OneDot(version: string, positive: bool)
    ensures forall i, j | 0 <= i < |version| && 0 <= j < |version| && Dotted(version, positive, i) && i != j ::
              version[j] != '.'
  {
    forall i, j | 0 <= i < |version| && 0 <= j < |version| && Dotted(version, positive, i) && i != j
      ensures version[j] != '.'
    {
      if j < i {
        assert version[j] == version[..i][j];
      } else {
        assert version[j] == version[i + 1..][j - i - 1];
      }
    }
  }

  /** The two parts around a dot, each matching its expression. The dot is the only one. */
  function Parts(version: string, positive: bool): (r: Option<(string, string)>)
    ensures r.Some? <==> exists i :: 0 <= i < |version| && Dotted(version, positive, i)
    ensures forall i | 0 <= i < |version| && Dotted(version, positive, i) :: r == Some((version[..i], version[i + 1..]))
  {
    var dot := LastIndexOf(version, '.');
    OneDot(version, positive);
    if dot >= 0 && Dotted(version, positive, dot) then Some((version[..dot], version[dot + 1..])) else None
  }

  /** QString::toInt on a string of digits. */
  function ToInt(s: string): Option<int>
    requires AllDigits(s)
  {
    if Number(s) <= INT_MAX then Some(Number(s)) else None
  }

  function Parse(version: string, positive: bool): Option<Version> {
    match Parts(version, positive)
    case None => None
    case Some((major, minor)) =>
      match (ToInt(major), ToInt(minor))
      case (Some(x), Some(y)) => Some(Version(x, y))
      case _ => None
  }

  // ---------------------------------------------------------------------------------------------
  // ServiceMetaData
  // ---------------------------------------------------------------------------------------------

  predicate CheckVersion(version: string) {
    Parse(version, true).Some?
  }

  function TransformVersion(version: string): Version {
    match Parse(version, true)
    case None => Version(-1, -1)
    case Some(v) => v
  }

  predicate Later(v: Version, w: Version) {
    v.major > w.major || (v.major == w.major && v.minor > w.minor)
  }

  predicate GreaterThan(v1: string, v2: string) {
    Later(TransformVersion(v1), TransformVersion(v2))
  }

  /** The version an interface filter asks for. */
  function FilterVersion(version: string): Option<Version> {
    Parse(version, false)
  }

  // ---------------------------------------------------------------------------------------------
  // What the grammar means
  // ---------------------------------------------------------------------------------------------

  lemma DecimalPlain(n: nat)
    ensures Plain(Decimal(n)) && AllDigits(Decimal(n)) && Number(Decimal(n)) == n
    ensures Positive(Decimal(n)) <==> n > 0
  {
    DecimalDigits(n);
  }

  /** Writing a version and reading it back gives the same numbers, up to the largest int; larger
      numbers are rejected, and so is major version 0 except in filters. */
  lemma VersionRoundTrip(major: nat, minor: nat, positive: bool)
    ensures var version := Decimal(major) + "." + Decimal(minor);
      Parse(version, positive) ==
        if (positive ==> major > 0) && major <= INT_MAX && minor <= INT_MAX then Some(Version(major, minor)) else None
  {
    DecimalPlain(major);
    DecimalPlain(minor);
    var i := |Decimal(major)|;
    var version := Decimal(major) + "." + Decimal(minor);
    assert version[..i] == Decimal(major) && version[i] == '.' && version[i + 1..] == Decimal(minor);
    hide Decimal, Number;
    if positive && major == 0 {
      assert !Dotted(version, true, i);
      assert Dotted(version, false, i);
      OneDot(version, false);
      assert Parts(version, true).None?;
    } else {
      assert Dotted(version, positive, i);
    }
  }

  /** A filter reads every version that the metadata parser accepts the same way, and besides those only
      versions whose major number is 0. */
  lemma FilterAgrees(version: string)
    ensures Parse(version, true) ==
      match FilterVersion(version)
      case None => None
      case Some(v) => if v.major > 0 then Some(v) else None
  {
    match Parts(version, false)
    case None =>
      assert forall i | 0 <= i < |version| :: Dotted(version, true, i) ==> Dotted(version, false, i);
    case Some((major, minor)) =>
      var i :| 0 <= i < |version| && Dotted(version, false, i);
      assert major == version[..i];
      ZerosAreZero(major);
      PositiveNumber(major);
      if Positive(major) {
        assert Dotted(version, true, i);
      } else {
        OneDot(version, false);
        assert forall j | 0 <= j < |version| :: !Dotted(version, true, j);
      }
      hide Number;
  }

  /** A dot with digits on both sides, and no others, where a number begins with 0 only if it has no other digit. */
  predicate DottedNumbers(version: string, i: int) {
    && 0 < i < |version| - 1 && version[i] == '.'
    && (forall k | 0 <= k < |version| && k != i :: '0' <= version[k] <= '9')
    && (version[0] == '0' ==> forall k | 0 <= k < i :: version[k] == '0')
    && (version[i + 1] == '0' ==> forall k | i < k < |version| :: version[k] == '0')
  }

  /** Exactly these are versions, if both numbers fit a 32-bit int and, for the metadata parser, the first is not 0. */
  lemma {:induction false} Grammar(version: string, positive: bool, i: int)
    requires 0 <= i < |version|
    ensures Dotted(version, positive, i) <==> DottedNumbers(version, i) && (positive ==> version[0] != '0')
    ensures DottedNumbers(version, i) ==> AllDigits(version[..i]) && AllDigits(version[i + 1..])
    ensures DottedNumbers(version, i) && (positive ==> version[0] != '0') ==>
              Parse(version, positive) ==
              var major, minor := Number(version[..i]), Number(version[i + 1..]);
              if major < 0x8000_0000 && minor < 0x8000_0000 then Some(Version(major, minor)) else None
  {
    var major, minor := version[..i], version[i + 1..];
    assert forall k | 0 <= k < |minor| :: minor[k] == version[i + 1 + k];
    assert forall k | i < k < |version| :: version[k] == minor[k - i - 1];
    hide Number;
  }

  /** Nothing else is. */
  lemma {:induction false} NoVersion(version: string, positive: bool)
    requires forall i | 0 <= i < |version| :: !DottedNumbers(version, i) || (positive && version[0] == '0')
    ensures Parse(version, positive).None?
  {
    forall i | 0 <= i < |version|
      ensures !Dotted(version, positive, i)
    {
      Grammar(version, positive, i);
    }
    hide DottedNumbers;
  }

  lemma PositiveNumber(s: string)
    requires AllDigits(s)
    ensures Positive(s) ==> Number(s) > 0
    ensures Zeros(s) ==> Number(s) == 0
  {
    ZerosAreZero(s);
  }

  /** Parsed numbers fit an int, and a parsed major version is at least 1. */
  lemma ParsedRange(version: string)
    requires CheckVersion(version)
    ensures var v := TransformVersion(version); 1 <= v.major <= INT_MAX && 0 <= v.minor <= INT_MAX
  {
    FilterAgrees(version);
    hide Number, Parts;
  }

  /** `greaterThan` is a strict order that can tell two strings apart exactly if they do not parse to the
      same version; strings that do not parse count as one version, below all others. */
  lemma GreaterThanOrder(v1: string, v2: string, v3: string)
    ensures !(GreaterThan(v1, v2) && GreaterThan(v2, v1))
    ensures GreaterThan(v1, v2) && GreaterThan(v2, v3) ==> GreaterThan(v1, v3)
    ensures !GreaterThan(v1, v2) && !GreaterThan(v2, v1) <==> Parse(v1, true) == Parse(v2, true)
    ensures CheckVersion(v1) && !CheckVersion(v2) ==> GreaterThan(v1, v2)
  {
    if CheckVersion(v1) {
      ParsedRange(v1);
    }
    if CheckVersion(v2) {
      ParsedRange(v2);
    }
    hide Parse;
  }
}
