/** The grammar of property names: a leading `.` run climbs toward the root, an embedded `.`
    descends into an object-valued property, and a `[idx]` suffix addresses a list element. */
module PropertyNames {
  import opened Values

  // ---------------------------------------------------------------------------------------
  // Classification

  /** `isParentProperty`: the name starts with a dot. */
  predicate IsParentProperty(name: string)
  {
    |name| > 0 && name[0] == '.'
  }

  /** `isChildProperty`: a dot somewhere in a name that is not parent-relative. */
  predicate IsChildProperty(name: string)
  {
    !IsParentProperty(name) && '.' in name
  }

  lemma ParentAndChildExclusive(name: string)
    ensures !(IsParentProperty(name) && IsChildProperty(name))
    ensures IsParentProperty(name) || IsChildProperty(name) <==> '.' in name
  {
    if IsParentProperty(name) {
      assert name[0] in name;
    }
  }

  // ---------------------------------------------------------------------------------------
  // Parent-relative names

  /** The number of dots the name starts with. */
  function LeadingDots(s: string): (n: nat)
    ensures n <= |s|
    ensures forall k :: 0 <= k < n ==> s[k] == '.'
    ensures n < |s| ==> s[n] != '.'
  {
    if s != [] && s[0] == '.' then 1 + LeadingDots(s[1..]) else 0
  }

  /** The number of navigation hops toward the root: one fewer than the leading dots, so that
      `.a` names `a` on the object itself. */
  function ParentLevels(name: string): nat
  {
    if IsParentProperty(name) then LeadingDots(name) - 1 else 0
  }

  lemma LeadingDotsAt(s: string, k: nat)
    requires k < |s| && s[k] == '.'
    ensures LeadingDots(s[k..]) == 1 + LeadingDots(s[k + 1..])
  {
    assert s[k..][1..] == s[k + 1..];
  }

  /** `getParentLevels`, with its counting loop. */
  method GetParentLevels(name: string) returns (levels: int)
    ensures levels == ParentLevels(name)
  {
    if !IsParentProperty(name) {
      return 0;
    }
    var level := 1;
    assert name[1..] == name[level..];
    while level < |name| && name[level] == '.'
      invariant 1 <= level <= |name|
      invariant LeadingDots(name) == level + LeadingDots(name[level..])
    {
      LeadingDotsAt(name, level);
      level := level + 1;
    }
    if level < |name| {
      assert LeadingDots(name[level..]) == 0;
    } else {
      assert name[level..] == [];
    }
    levels := level - 1;
  }

  /** What remains of a parent-relative name once its dots are dropped (`substr(levels + 1)`). */
  function ParentRemainder(name: string): (rest: string)
    requires IsParentProperty(name)
    ensures name == name[..LeadingDots(name)] + rest
    ensures rest == [] || rest[0] != '.'
    ensures rest == [] <==> forall k :: 0 <= k < |name| ==> name[k] == '.'
  {
    name[ParentLevels(name) + 1..]
  }

  /** The object reached from `start` by following `hops` owner links, or NotFound when the
      chain ends first. `owners` maps each owned object to its owner. */
  function Ancestor(start: ObjId, hops: nat, owners: map<ObjId, ObjId>): (r: Result<ObjId>)
    ensures hops == 0 ==> r == Ok(start)
    ensures hops > 0 && start !in owners ==> r == Err(NotFound)
    ensures r.Err? ==> r.err == NotFound
    decreases hops
  {
    if hops == 0 then Ok(start)
    else if start !in owners then Err(NotFound)
    else Ancestor(owners[start], hops - 1, owners)
  }

  /** The loop of `getParentPropertyValue`: check the remaining path, then climb the owner
      chain one hop at a time. The object found and the path to resolve there are returned. */
  method ResolveParentPath(self: ObjId, name: string, owners: map<ObjId, ObjId>)
    returns (r: Result<(ObjId, string)>)
    requires IsParentProperty(name)
    ensures ParentRemainder(name) == [] ==> r == Err(InvalidParameter)
    ensures ParentRemainder(name) != [] ==>
              match Ancestor(self, ParentLevels(name), owners)
              case Ok(target) => r == Ok((target, ParentRemainder(name)))
              case Err(e) => r == Err(e)
  {
    var levels := GetParentLevels(name);
    var rest := name[levels + 1..];
    if rest == [] {
      return Err(InvalidParameter);
    }
    var parent := self;
    var i := 0;
    while i < levels
      invariant 0 <= i <= levels
      invariant Ancestor(self, levels, owners) == Ancestor(parent, levels - i, owners)
    {
      if parent !in owners {
        return Err(NotFound);
      }
      parent := owners[parent];
      i := i + 1;
    }
    r := Ok((parent, rest));
  }

  /** An ancestor reached in one climb is the same as climbing the two parts in turn. */
  lemma {:induction false} AncestorSplit(start: ObjId, a: nat, b: nat, owners: map<ObjId, ObjId>)
    ensures Ancestor(start, a + b, owners) ==
              match Ancestor(start, a, owners)
              case Ok(mid) => Ancestor(mid, b, owners)
              case Err(e) => Err(e)
    decreases a
  {
    if a > 0 && start in owners {
      AncestorSplit(owners[start], a - 1, b, owners);
    }
  }

  /** A single leading dot resolves on the object itself; N dots need N - 1 owners. */
  lemma SingleDotIsSelf(self: ObjId, rest: string, owners: map<ObjId, ObjId>)
    requires rest != [] && rest[0] != '.'
    ensures IsParentProperty("." + rest)
    ensures ParentLevels("." + rest) == 0
    ensures ParentRemainder("." + rest) == rest
    ensures Ancestor(self, ParentLevels("." + rest), owners) == Ok(self)
  {
    var name := "." + rest;
    assert name[1..] == rest;
    assert LeadingDots(name) == 1 + LeadingDots(rest);
  }

  // ---------------------------------------------------------------------------------------
  // Child-relative names

  function FirstIndexOf(s: string, c: char): (r: Option<nat>)
    ensures r.Some? ==> r.value < |s| && s[r.value] == c && c !in s[..r.value]
    ensures r.None? <==> c !in s
  {
    if s == [] then None
    else if s[0] == c then Some(0)
    else match FirstIndexOf(s[1..], c)
      case None => None
      case Some(k) => assert s[..k + 1] == [s[0]] + s[1..][..k]; Some(k + 1)
  }

  function LastIndexOf(s: string, c: char): (r: Option<nat>)
    ensures r.Some? ==> r.value < |s| && s[r.value] == c && c !in s[r.value + 1..]
    ensures r.None? <==> c !in s
  {
    if s == [] then None
    else if s[|s| - 1] == c then Some(|s| - 1)
    else
      var r := LastIndexOf(s[..|s| - 1], c);
      assert forall k :: r.Some? && r.value + 1 <= k < |s| - 1 ==> s[k] == s[..|s| - 1][k];
      assert s == s[..|s| - 1] + [s[|s| - 1]];
      r
  }

  /** `splitOnFirstDot`: with no dot the head is the whole input and the tail is left as it
      was; otherwise the input is head, a dot, then tail, and the head holds no dot. */
  function SplitOnFirstDot(input: string, tail: string): (r: (string, string))
    ensures '.' !in input ==> r == (input, tail)
    ensures '.' in input ==> input == r.0 + "." + r.1 && '.' !in r.0
  {
    match FirstIndexOf(input, '.')
    case None => (input, tail)
    case Some(pos) =>
      assert input == input[..pos] + "." + input[pos + 1..];
      (input[..pos], input[pos + 1..])
  }

  /** `splitOnLastDot`: as the first-dot split, except that the tail holds no dot. */
  function SplitOnLastDot(input: string, tail: string): (r: (string, string))
    ensures '.' !in input ==> r == (input, tail)
    ensures '.' in input ==> input == r.0 + "." + r.1 && '.' !in r.1
  {
    match LastIndexOf(input, '.')
    case None => (input, tail)
    case Some(pos) =>
      assert input == input[..pos] + "." + input[pos + 1..];
      (input[..pos], input[pos + 1..])
  }

  /** The position of the first occurrence of `c` in `a + [c] + b`, when `a` has none. */
  lemma {:induction false} FirstIndexOfConcat(a: string, c: char, b: string)
    requires c !in a
    ensures FirstIndexOf(a + [c] + b, c) == Some(|a|)
    decreases |a|
  {
    if a == [] {
      assert (a + [c] + b)[0] == c;
    } else {
      assert (a + [c] + b)[1..] == a[1..] + [c] + b;
      assert a[0] in a;
      FirstIndexOfConcat(a[1..], c, b);
    }
  }

  /** Head and tail of the first-dot split are determined uniquely by their characterisation. */
  lemma SplitOnFirstDotUnique(input: string, head: string, tail: string, any: string)
    requires input == head + "." + tail && '.' !in head
    ensures SplitOnFirstDot(input, any) == (head, tail)
  {
    FirstIndexOfConcat(head, '.', tail);
    assert input[..|head|] == head;
    assert input[|head| + 1..] == tail;
  }

  // ---------------------------------------------------------------------------------------
  // Index suffixes: `parseIndex` is `strtol` in base 10, then a cast to a 32-bit `int`.

  predicate IsSpace(c: char)
  {
    c == ' ' || c == '\t' || c == '\n' || c == '\r' || c as int == 11 || c as int == 12
  }

  predicate IsDigit(c: char)
  {
    '0' <= c <= '9'
  }

  function LeadingSpaces(s: string): (n: nat)
    ensures n <= |s|
  {
    if s != [] && IsSpace(s[0]) then 1 + LeadingSpaces(s[1..]) else 0
  }

  function LeadingDigits(s: string): (n: nat)
    ensures n <= |s|
    ensures forall k :: 0 <= k < n ==> IsDigit(s[k])
    ensures n < |s| ==> !IsDigit(s[n])
  {
    if s != [] && IsDigit(s[0]) then 1 + LeadingDigits(s[1..]) else 0
  }

  /** The decimal value of a run of digits. */
  function DigitsValue(s: string): (v: int)
    requires forall k :: 0 <= k < |s| ==> IsDigit(s[k])
    ensures v >= 0
    decreases |s|
  {
    if s == [] then 0
    else
      assert IsDigit(s[|s| - 1]);
      10 * DigitsValue(s[..|s| - 1]) + (s[|s| - 1] as int - '0' as int)
  }

  const LongMin: int := -0x8000_0000_0000_0000
  const LongMax: int :=  0x7FFF_FFFF_FFFF_FFFF

  /** The parse of `strtol(s, &end, 10)`: the number of characters consumed (zero when no digit
      follows the optional spaces and sign, as `strtol` then sets `end` to its argument) and the
      value, saturated to the range of a 64-bit `long`. */
  function Strtol(s: string): (r: (nat, int))
    ensures r.0 <= |s|
    ensures LongMin <= r.1 <= LongMax
  {
    var sp := LeadingSpaces(s);
    var signLen := if sp < |s| && (s[sp] == '+' || s[sp] == '-') then 1 else 0;
    var negative := signLen == 1 && s[sp] == '-';
    var rest := s[sp + signLen..];
    var nd := LeadingDigits(rest);
    if nd == 0 then (0, 0)
    else
      var magnitude := DigitsValue(rest[..nd]);
      var v: int := if negative then -magnitude else magnitude;
      (sp + signLen + nd, if v < LongMin then LongMin else if v > LongMax then LongMax else v)
  }

  /** The conversion of a `long` to a 32-bit `int` (modulo 2^32, two's complement). */
  function ToInt32(v: int): (r: int)
    ensures -0x8000_0000 <= r < 0x8000_0000
    ensures -0x8000_0000 <= v < 0x8000_0000 ==> r == v
  {
    var m := v % 0x1_0000_0000;
    if m >= 0x8000_0000 then m - 0x1_0000_0000 else m
  }

  /** `parseIndex` as written, applied to the text that follows a `[`: the first `]` is located
      and the number parsed by `strtol` must end exactly there. When there is no digit at all,
      `strtol` reports no progress, which matches a `]` immediately after the `[`. */
  function ParseIndexAsWritten(afterBracket: string): (r: Result<int>)
    ensures r.Ok? ==> -0x8000_0000 <= r.value < 0x8000_0000
    ensures r.Err? ==> r.err == InvalidParameter
    ensures ']' !in afterBracket ==> r == Err(InvalidParameter)
  {
    match FirstIndexOf(afterBracket, ']')
    case None => Err(InvalidParameter)
    case Some(last) =>
      var (consumed, value) := Strtol(afterBracket);
      if consumed != last then Err(InvalidParameter) else Ok(ToInt32(value))
  }

  /** An empty pair of brackets is read as index 0. */
  lemma EmptyBracketsAsWritten()
    ensures ParseIndexAsWritten("]") == Ok(0)
  {
    assert FirstIndexOf("]", ']') == Some(0);
  }

  /** `parseIndex` as evidently intended: it also rejects an empty index. */
  function ParseIndex(afterBracket: string): (r: Result<int>)
    ensures r.Ok? ==> -0x8000_0000 <= r.value < 0x8000_0000
    ensures r.Ok? ==> ParseIndexAsWritten(afterBracket) == r
    ensures r.Err? ==> r.err == InvalidParameter
  {
    match FirstIndexOf(afterBracket, ']')
    case None => Err(InvalidParameter)
    case Some(last) =>
      var (consumed, value) := Strtol(afterBracket);
      if consumed != last || consumed == 0 then Err(InvalidParameter) else Ok(ToInt32(value))
  }

  /** `strtol` on text that starts with a digit reads exactly the leading digits. */
  lemma StrtolFromDigit(s: string)
    requires s != [] && IsDigit(s[0])
    ensures Strtol(s).0 == LeadingDigits(s)
    ensures DigitsValue(s[..LeadingDigits(s)]) <= LongMax ==>
              Strtol(s).1 == DigitsValue(s[..LeadingDigits(s)])
  {
    assert !IsSpace(s[0]);
    assert LeadingSpaces(s) == 0;
    assert s[0..] == s;
  }

  /** `parseIndex` accepts a number that ends exactly at the first `]`. */
  lemma ParseIndexAccepts(s: string, last: nat, v: int)
    requires FirstIndexOf(s, ']') == Some(last) && Strtol(s) == (last, v)
    requires last > 0 && -0x8000_0000 <= v < 0x8000_0000
    ensures ParseIndex(s) == Ok(v)
  {
  }

  lemma StrtolDigitsBracket(digits: string, after: string)
    requires digits != [] && forall k :: 0 <= k < |digits| ==> IsDigit(digits[k])
    requires DigitsValue(digits) < 0x8000_0000
    ensures Strtol(digits + "]" + after) == (|digits|, DigitsValue(digits))
  {
    var s := digits + "]" + after;
    assert s == digits + ("]" + after);
    LeadingDigitsPrefix(digits, "]" + after);
    assert s[..|digits|] == digits;
    assert s[0] == digits[0];
    StrtolFromDigit(s);
  }

  /** A digit string closed by `]` parses to its value. */
  lemma ParseIndexDigits(digits: string, after: string)
    requires digits != [] && forall k :: 0 <= k < |digits| ==> IsDigit(digits[k])
    requires DigitsValue(digits) < 0x8000_0000
    ensures ParseIndex(digits + "]" + after) == Ok(DigitsValue(digits))
  {
    assert ']' !in digits by {
      forall k | 0 <= k < |digits| ensures digits[k] != ']' { assert IsDigit(digits[k]); }
    }
    FirstIndexOfConcat(digits, ']', after);
    StrtolDigitsBracket(digits, after);
    ParseIndexAccepts(digits + "]" + after, |digits|, DigitsValue(digits));
  }

  lemma {:induction false} LeadingDigitsPrefix(digits: string, rest: string)
    requires forall k :: 0 <= k < |digits| ==> IsDigit(digits[k])
    requires rest != [] && !IsDigit(rest[0])
    ensures LeadingDigits(digits + rest) == |digits|
    decreases |digits|
  {
    if digits != [] {
      assert (digits + rest)[1..] == digits[1..] + rest;
      LeadingDigitsPrefix(digits[1..], rest);
    } else {
      assert digits + rest == rest;
    }
  }

  lemma ParseIndexNoBracket(afterBracket: string)
    requires ']' !in afterBracket
    ensures ParseIndex(afterBracket) == Err(InvalidParameter)
  {
  }

  /** The two definitions differ exactly on an empty index. */
  lemma ParseIndexDiffers(afterBracket: string)
    requires ParseIndexAsWritten(afterBracket) != ParseIndex(afterBracket)
    ensures |afterBracket| > 0 && afterBracket[0] == ']'
    ensures ParseIndexAsWritten(afterBracket) == Ok(0)
  {
  }

  // ---------------------------------------------------------------------------------------
  // `getPropertyNameInfo` and `getPropNameWithoutIndex`

  /** The name before the first `[` and the position of that `[`, if any. */
  function NameWithoutIndex(name: string): (r: (string, Option<nat>))
    ensures r.1.None? ==> r.0 == name && '[' !in name
    ensures r.1.Some? ==> r.1.value < |name| && name[r.1.value] == '['
                          && r.0 == name[..r.1.value] && '[' !in r.0
  {
    match FirstIndexOf(name, '[')
    case None => (name, None)
    case Some(p) => (name[..p], Some(p))
  }

  /** A parsed name as the source keeps it: an index of -1 means "no index". */
  datatype NameInfoAsWritten = NameInfoAsWritten(name: string, index: int)

  function GetPropertyNameInfoAsWritten(name: string): (r: Result<NameInfoAsWritten>)
    ensures r.Ok? ==> r.value.name == NameWithoutIndex(name).0
    ensures '[' !in name ==> r == Ok(NameInfoAsWritten(name, -1))
    ensures r.Err? ==> r.err == InvalidParameter && '[' in name
  {
    match NameWithoutIndex(name)
    case (base, None) => Ok(NameInfoAsWritten(base, -1))
    case (base, Some(p)) =>
      match ParseIndexAsWritten(name[p + 1..])
      case Err(e) => Err(e)
      case Ok(i) => Ok(NameInfoAsWritten(base, i))
  }

  lemma StrtolMinusOne()
    ensures Strtol("-1]") == (2, -1)
  {
    var s := "-1]";
    assert !IsSpace(s[0]);
    assert LeadingSpaces(s) == 0;
    assert s[1..] == "1" + "]";
    LeadingDigitsPrefix("1", "]");
    assert ("1" + "]")[..1] == "1";
    assert DigitsValue("1") == 1 by { assert "1"[..0] == ""; }
  }

  lemma ParseMinusOneAsWritten()
    ensures ParseIndexAsWritten("-1]") == Ok(-1)
  {
    assert "-1]" == "-1" + [']'] + "";
    FirstIndexOfConcat("-1", ']', "");
    StrtolMinusOne();
    assert ToInt32(-1) == -1;
  }

  lemma NameWithoutIndexMinusOne()
    ensures NameWithoutIndex("a[-1]") == ("a", Some(1))
  {
    assert "a[-1]" == "a" + ['['] + "-1]";
    FirstIndexOfConcat("a", '[', "-1]");
    assert "a[-1]"[..1] == "a";
  }

  /** `name[-1]` is indistinguishable from `name`. */
  lemma MinusOneIsNoIndexAsWritten()
    ensures GetPropertyNameInfoAsWritten("a[-1]") == Ok(NameInfoAsWritten("a", -1))
    ensures GetPropertyNameInfoAsWritten("a") == Ok(NameInfoAsWritten("a", -1))
  {
    NameWithoutIndexMinusOne();
    assert "a[-1]"[2..] == "-1]";
    ParseMinusOneAsWritten();
  }

  /** A parsed name with the index kept apart from its absence. */
  datatype NameInfo = NameInfo(name: string, index: Option<int>)

  function GetPropertyNameInfo(name: string): (r: Result<NameInfo>)
    ensures r.Ok? ==> r.value.name == NameWithoutIndex(name).0
    ensures r.Ok? ==> (r.value.index.None? <==> '[' !in name)
    ensures r.Err? ==> r.err == InvalidParameter && '[' in name
  {
    match NameWithoutIndex(name)
    case (base, None) => Ok(NameInfo(base, None))
    case (base, Some(p)) =>
      assert name[p] in name;
      match ParseIndex(name[p + 1..])
      case Err(e) => Err(e)
      case Ok(i) => Ok(NameInfo(base, Some(i)))
  }

  /** With the index kept apart, `name[-1]` is an index that no list has. */
  lemma MinusOneIsIndex()
    ensures GetPropertyNameInfo("a[-1]") == Ok(NameInfo("a", Some(-1)))
  {
    NameWithoutIndexMinusOne();
    assert "a[-1]"[2..] == "-1]";
    assert "-1]" == "-1" + [']'] + "";
    FirstIndexOfConcat("-1", ']', "");
    StrtolMinusOne();
    ParseIndexAccepts("-1]", 2, -1);
  }

  /** `base[digits]` is the name `base` with the index the digits spell. */
  lemma IndexedName(base: string, digits: string)
    requires '[' !in base
    requires digits != [] && forall k :: 0 <= k < |digits| ==> IsDigit(digits[k])
    requires DigitsValue(digits) < 0x8000_0000
    ensures NameWithoutIndex(base + "[" + digits + "]").0 == base
    ensures NameWithoutIndex(base + "[" + digits + "]").1 == Some(|base| as nat)
    ensures ParseIndex((base + "[" + digits + "]")[|base| + 1..]) == Ok(DigitsValue(digits))
    ensures GetPropertyNameInfo(base + "[" + digits + "]") == Ok(NameInfo(base, Some(DigitsValue(digits))))
  {
    var name := base + "[" + digits + "]";
    assert name == base + ['['] + (digits + "]");
    BaseBeforeBracket(base, digits + "]");
    assert name[|base| + 1..] == digits + "]" + "";
    ParseIndexDigits(digits, "");
    IndexedInfo(name, base, |base|, DigitsValue(digits));
  }

  /** The base of a name is what precedes its first `[`. */
  lemma BaseBeforeBracket(base: string, tail: string)
    requires '[' !in base
    ensures NameWithoutIndex(base + ['['] + tail) == (base, Some(|base| as nat))
  {
    FirstIndexOfConcat(base, '[', tail);
    assert (base + ['['] + tail)[..|base|] == base;
  }

  /** A name whose base and index both parse gives that base and index. */
  lemma IndexedInfo(name: string, base: string, p: nat, i: int)
    requires NameWithoutIndex(name) == (base, Some(p))
    requires ParseIndex(name[p + 1..]) == Ok(i)
    ensures GetPropertyNameInfo(name) == Ok(NameInfo(base, Some(i)))
  {
  }
}
