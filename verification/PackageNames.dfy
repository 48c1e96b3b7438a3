/** The name map of a legacy package: names are stored as a base and a number. */
module PackageNames {
  import opened Package

  // ---- Decimal numbers ----

  function Digit(d: nat): char
    requires d < 10
  {
    ['0', '1', '2', '3', '4', '5', '6', '7', '8', '9'][d]
  }

  function DigitValue(c: char): Option<nat> {
    if '0' <= c <= '9' then Some(c as nat - '0' as nat) else None
  }

  lemma {:induction false} DigitReads(d: nat)
    requires d < 10
    ensures DigitValue(Digit(d)) == Some(d)
  {
  }

  function Decimal(n: nat): (s: string)
    ensures s != ""
  {
    if n < 10 then [Digit(n)] else Decimal(n / 10) + [Digit(n % 10)]
  }

  /** The value of a string of digits. */
  function Parsed(s: string): Option<nat> {
    if s == "" then None
    else
      var last := DigitValue(s[|s| - 1]);
      if last.None? then None
      else if |s| == 1 then last
      else
        var front := Parsed(s[..|s| - 1]);
        if front.None? then None else Some(10 * front.value + last.value)
  }

  lemma {:induction false} DecimalParses(n: nat)
    ensures Parsed(Decimal(n)) == Some(n)
  {
    if n < 10 {
      DigitReads(n);
    } else {
      DecimalParses(n / 10);
      DigitReads(n % 10);
      var front := Decimal(n / 10);
      assert Decimal(n) == front + [Digit(n % 10)];
      assert (front + [Digit(n % 10)])[..|front|] == front;
    }
  }

  const I32_MAX: nat := 0x7FFF_FFFF

  /** The number that a suffix spells without leading zeros, if it fits 32 bits. */
  function CanonicalNumber(s: string): Option<nat> {
    var n := Parsed(s);
    if n.Some? && n.value <= I32_MAX && Decimal(n.value) == s then n else None
  }

  lemma {:induction false} CanonicalIsDecimal(s: string, n: nat)
    ensures CanonicalNumber(s) == Some(n) <==> n <= I32_MAX && s == Decimal(n)
  {
    DecimalParses(n);
  }

  // ---- Base and number ----

  /** The position of the last underscore, or the length if there is none. */
  function LastUnderscore(s: string, n: nat): (k: nat)
    requires n <= |s|
    ensures k < n || k == |s|
    ensures if k < |s| then k < n && s[k] == '_' && forall j ::
      k < j < n ==> s[j] != '_' else forall j :: 0 <= j < n ==> s[j] != '_'
  {
    if n == 0 then |s| else if s[n - 1] == '_' then n - 1 else LastUnderscore(s, n - 1)
  }

  /** `FMinimalName`; number 0 means that there is none. */
  datatype MinimalName = MinimalName(index: nat, number: nat)

  datatype BaseAndNumber = BaseAndNumber(base: string, number: nat)

  /** The number stored is one more than the number written, which overflows for the largest one. */
  predicate Overflows(name: string) {
    var k := LastUnderscore(name, |name|);
    k < |name| && CanonicalNumber(name[k + 1..]) == Some(I32_MAX)
  }

  /** `break_down_name_string`. */
  function BreakDown(name: string): BaseAndNumber {
    var k := LastUnderscore(name, |name|);
    if k == |name| || CanonicalNumber(name[k + 1..]).None? then BaseAndNumber(name, 0)
    else BaseAndNumber(name[..k], CanonicalNumber(name[k + 1..]).value + 1)
  }

  function PutTogether(base: string, number: nat): string {
    if number == 0 then base else base + "_" + Decimal(number - 1)
  }

  /** Taken apart and put together a name is the same, whatever digits it ends with. */
  lemma {:induction false} BreakDownInverse(name: string)
    ensures PutTogether(BreakDown(name).base, BreakDown(name).number) == name
  {
    var k := LastUnderscore(name, |name|);
    if k < |name| && CanonicalNumber(name[k + 1..]).Some? {
      var n := CanonicalNumber(name[k + 1..]).value;
      CanonicalIsDecimal(name[k + 1..], n);
      assert name == name[..k] + [name[k]] + name[k + 1..];
    }
  }

  lemma {:induction false} DecimalIsDigits(n: nat, i: nat)
    requires i < |Decimal(n)|
    ensures Decimal(n)[i] != '_'
  {
    if n >= 10 && i < |Decimal(n / 10)| {
      DecimalIsDigits(n / 10, i);
    }
  }

  lemma {:induction false} LastUnderscoreIs(s: string, n: nat, k: nat)
    requires k < n <= |s| && s[k] == '_' && forall j :: k < j < n ==> s[j] != '_'
    ensures LastUnderscore(s, n) == k
  {
  }

  /** A canonical number behind the last underscore is always taken off, whatever stands before it. */
  lemma {:induction false} NumberIsTaken(base: string, n: nat)
    requires n <= I32_MAX
    ensures BreakDown(base + "_" + Decimal(n)) == BaseAndNumber(base, n + 1)
  {
    var name := base + "_" + Decimal(n);
    forall j | |base| < j < |name| ensures name[j] != '_' {
      DecimalIsDigits(n, j - |base| - 1);
    }
    LastUnderscoreIs(name, |name|, |base|);
    assert name[..|base|] == base && name[|base| + 1..] == Decimal(n);
    CanonicalIsDecimal(Decimal(n), n);
  }

  /** And nothing else is: a name without number is one that does not end in an underscore and a canonical number. */
  lemma {:induction false} NumberlessNames(name: string)
    ensures BreakDown(name).number == 0 <==> forall base: string, n: nat ::
      n <= I32_MAX ==> name != base + "_" + Decimal(n)
  {
    BreakDownInverse(name);
    if BreakDown(name).number == 0 {
      forall base: string, n: nat | n <= I32_MAX ensures name != base + "_" + Decimal(n) {
        NumberIsTaken(base, n);
      }
    } else {
      var k := LastUnderscore(name, |name|);
      CanonicalIsDecimal(name[k + 1..], BreakDown(name).number - 1);
    }
  }

  /** A number fits 32 bits exactly when the name does not end with the largest one. */
  lemma {:induction false} NumberFits(name: string)
    ensures BreakDown(name).number <= I32_MAX <==> !Overflows(name)
  {
    var k := LastUnderscore(name, |name|);
    if k < |name| && CanonicalNumber(name[k + 1..]).Some? {
      CanonicalIsDecimal(name[k + 1..], CanonicalNumber(name[k + 1..]).value);
    }
  }

  function NameOf(names: seq<string>, m: MinimalName): string
    requires m.index < |names|
  {
    PutTogether(names[m.index], m.number)
  }

  /** `FPackageNameMap`. */
  class NameMap {
    var names: seq<string>
    var lookup: map<string, nat>

    /** Every name is found, at a place where it is. */
    ghost predicate Valid()
      reads this
    {
      && (forall s :: s in lookup ==> lookup[s] < |names| && names[lookup[s]] == s)
      && (forall i :: 0 <= i < |names| ==> names[i] in lookup)
    }

    /** `create_from_names`: of equal names the last is found. */
    constructor (names: seq<string>)
      ensures Valid() && this.names == names
      ensures forall i, j :: 0 <= i < j < |names| && names[i] == names[j] ==> lookup[names[i]] != i
    {
      var lookup: map<string, nat> := map[];
      for i := 0 to |names|
        invariant forall s :: s in lookup ==> lookup[s] < i && names[lookup[s]] == s
        invariant forall j :: 0 <= j < i ==> names[j] in lookup && lookup[names[j]] >= j
      {
        lookup := lookup[names[i] := i];
      }
      this.names, this.lookup := names, lookup;
    }

    /** `get`. */
    function Get(m: MinimalName): string
      requires m.index < |names|
      reads this
    {
      NameOf(names, m)
    }

    /** `store`: the name can be got back, no earlier name changes, and a base is added only if it is new. */
    method Store(name: string) returns (r: Result<MinimalName>)
      requires Valid()
      modifies this
      ensures Valid() && old(names) <= names
      ensures r.Success? <==> !Overflows(name)
      ensures r.Success? ==> r.value.index < |names| && Get(r.value) == name && r.value.number <= I32_MAX
      ensures names == old(names) ||
              (BreakDown(name).base !in old(names) && names == old(names) + [BreakDown(name).base])
    {
      NumberFits(name);
      BreakDownInverse(name);
      var parts := BreakDown(name);
      if parts.number > I32_MAX {
        return Failure("attempt to add with overflow");
      }
      if parts.base in lookup {
        return Success(MinimalName(lookup[parts.base], parts.number));
      }
      lookup := lookup[parts.base := |names|];
      names := names + [parts.base];
      r := Success(MinimalName(|names| - 1, parts.number));
    }
  }

  /** Names stored earlier read the same when more have been added. */
  lemma {:induction false} EarlierNamesStay(names: seq<string>, names': seq<string>, m: MinimalName)
    requires names <= names' && m.index < |names|
    ensures NameOf(names', m) == NameOf(names, m)
  {
    assert names'[m.index] == names[m.index];
  }
}
