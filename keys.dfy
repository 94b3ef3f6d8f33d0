/** Diagnostic string keys for identifiers and paths: "vendor/attr", with `*`
    for the wildcard sentinel, and a path as its own key followed by "." and
    its parent's key. A parser for the same syntax shows the rendering loses
    nothing. */
module Keys {
  import opened AvpTypes
  import opened Paths

  /** The all-bits-set value that renders as `*`. The matcher ignores it. */
  const WildcardValue: uint32 := 0xFFFF_FFFF

  predicate IsDigit(c: char)
  {
    '0' <= c <= '9'
  }

  predicate AllDigits(s: string)
  {
    forall i :: 0 <= i < |s| ==> IsDigit(s[i])
  }

  function DigitChar(d: nat): (c: char)
    requires d < 10
    ensures IsDigit(c)
  {
    ('0' as int + d) as char
  }

  function DigitValue(c: char): nat
    requires IsDigit(c)
  {
    c as int - '0' as int
  }

  /** The unsigned decimal rendering of `n`, as `%d` prints it. */
  function Decimal(n: nat): (s: string)
    ensures s != [] && AllDigits(s)
  {
    if n < 10 then [DigitChar(n)] else Decimal(n / 10) + [DigitChar(n % 10)]
  }

  function ParseDecimal(s: string): nat
    requires AllDigits(s)
  {
    if s == [] then 0 else ParseDecimal(s[..|s| - 1]) * 10 + DigitValue(s[|s| - 1])
  }

  lemma {:induction false} DecimalRoundTrip(n: nat)
    ensures ParseDecimal(Decimal(n)) == n
  {
    var s := Decimal(n);
    if n >= 10 {
      assert s[..|s| - 1] == Decimal(n / 10);
      DecimalRoundTrip(n / 10);
    }
  }

  /** One field of `skey`: `*` for the sentinel, decimal otherwise. */
  function FieldKey(x: uint32): string
  {
    if x == WildcardValue then "*" else Decimal(x)
  }

  /** `avpId.skey()`. */
  function SKey(id: AvpId): string
  {
    FieldKey(id.vendorId) + "/" + FieldKey(id.attrId)
  }

  /** `pathElement.skey2()`: the element's key, then "." and the parent's
      rendering when there is a parent. */
  function SKey2(p: Path): string
    decreases p
  {
    SKey(p.id) + if p.parent.None? then "" else "." + SKey2(p.parent.value)
  }

  /** The position of the first `c` in `s`, if any. */
  function Find(s: string, c: char): (r: Option<nat>)
    ensures r.Some? ==> r.value < |s| && s[r.value] == c
    ensures r.Some? ==> forall j :: 0 <= j < r.value ==> s[j] != c
    ensures r.None? ==> forall j :: 0 <= j < |s| ==> s[j] != c
  {
    if s == [] then None
    else if s[0] == c then Some(0)
    else match Find(s[1..], c)
      case None => None
      case Some(k) => Some(k + 1)
  }

  function ParseField(s: string): Option<uint32>
  {
    if s == "*" then Some(WildcardValue)
    else if s != [] && AllDigits(s) && ParseDecimal(s) < 0x1_0000_0000 then Some(ParseDecimal(s))
    else None
  }

  /** Reads back a key "vendor/attr". */
  function ParseKey(s: string): Option<AvpId>
  {
    match Find(s, '/')
    case None => None
    case Some(i) =>
      match (ParseField(s[..i]), ParseField(s[i + 1..]))
      case (Some(v), Some(a)) => Some(AvpId(v, a))
      case _ => None
  }

  /** Reads back a "."-separated chain of keys, innermost first. */
  function ParsePath(s: string): Option<Path>
    decreases |s|
  {
    match Find(s, '.')
    case None =>
      (match ParseKey(s)
       case None => None
       case Some(id) => Some(Path(id, None)))
    case Some(i) =>
      match (ParseKey(s[..i]), ParsePath(s[i + 1..]))
      case (Some(id), Some(p)) => Some(Path(id, Some(p)))
      case _ => None
  }

  /** Splitting `a + [c] + b` at the first `c` gives back `a` and `b` when
      `a` holds no `c`. */
  lemma SplitAtFirst(a: string, c: char, b: string)
    requires forall j :: 0 <= j < |a| ==> a[j] != c
    ensures Find(a + [c] + b, c) == Some(|a|)
    ensures (a + [c] + b)[..|a|] == a && (a + [c] + b)[|a| + 1..] == b
  {
    var s := a + [c] + b;
    assert s[|a|] == c;
  }

  lemma {:induction false} FieldRoundTrip(x: uint32)
    ensures ParseField(FieldKey(x)) == Some(x)
    ensures forall j :: 0 <= j < |FieldKey(x)| ==> FieldKey(x)[j] != '/' && FieldKey(x)[j] != '.'
  {
    if x != WildcardValue {
      var s := Decimal(x);
      assert s[0] != '*';
      DecimalRoundTrip(x);
    }
  }

  /** Rendering an identifier and reading it back gives the identifier, so
      distinct identifiers have distinct keys; keys never contain ".". */
  lemma {:induction false} KeyRoundTrip(id: AvpId)
    ensures ParseKey(SKey(id)) == Some(id)
    ensures forall j :: 0 <= j < |SKey(id)| ==> SKey(id)[j] != '.'
  {
    var v, a := FieldKey(id.vendorId), FieldKey(id.attrId);
    FieldRoundTrip(id.vendorId);
    FieldRoundTrip(id.attrId);
    assert SKey(id) == v + ['/'] + a;
    SplitAtFirst(v, '/', a);
  }

  /** Rendering a path and reading it back gives the path: the rendering is
      the chain of the elements' keys, innermost first, joined by ".". */
  lemma {:induction false} PathRoundTrip(p: Path)
    ensures ParsePath(SKey2(p)) == Some(p)
    decreases p
  {
    var k := SKey(p.id);
    KeyRoundTrip(p.id);
    match p.parent
    case None =>
      assert SKey2(p) == k;
    case Some(pp) =>
      var rest := SKey2(pp);
      assert SKey2(p) == k + ['.'] + rest;
      SplitAtFirst(k, '.', rest);
      PathRoundTrip(pp);
  }
}
