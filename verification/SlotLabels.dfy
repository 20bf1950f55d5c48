// The label of a tenant's token: the tenant's UUID read in base 16 and printed in base 36.
// It has to fit the 32 characters of a token label, to tell tenants apart, and to survive
// the blank padding of CK_TOKEN_INFO (section 3.2 of the PKCS #11 Base Specification v2.40).
module SlotLabels {
  import opened Wrappers
  import opened Tokens

  const MAX_LABEL := 32

  // ----- numerals ----------------------------------------------------------------

  predicate IsHex(c: char) {
    '0' <= c <= '9' || 'a' <= c <= 'f' || 'A' <= c <= 'F'
  }

  predicate AllHex(s: string) {
    forall i :: 0 <= i < |s| ==> IsHex(s[i])
  }

  function HexValue(c: char): (v: nat)
    requires IsHex(c)
    ensures v < 16
  {
    if c <= '9' then c as nat - '0' as nat
    else if c <= 'F' then c as nat - 'A' as nat + 10
    else c as nat - 'a' as nat + 10
  }

  function ToLower(c: char): char {
    if 'A' <= c <= 'Z' then (c as int - 'A' as int + 'a' as int) as char else c
  }

  function LowerCase(s: string): string {
    seq(|s|, i requires 0 <= i < |s| => ToLower(s[i]))
  }

  function Value16(s: string): nat
    requires AllHex(s)
  {
    if s == "" then 0 else 16 * Value16(s[..|s| - 1]) + HexValue(s[|s| - 1])
  }

  function Digit36(d: nat): (c: char)
    requires d < 36
    ensures '0' <= c <= '9' || 'a' <= c <= 'z'
  {
    if d < 10 then ('0' as int + d) as char else ('a' as int + d - 10) as char
  }

  function Text36(n: nat): string {
    if n < 36 then [Digit36(n)] else Text36(n / 36) + [Digit36(n % 36)]
  }

  // ----- the label ------------------------------------------------------------------

  function RemoveHyphens(s: string): string {
    if s == "" then "" else (if s[0] == '-' then "" else [s[0]]) + RemoveHyphens(s[1..])
  }

  /** big.Int's SetString in base 16: an optional plus sign, then at least one digit. For any
      other text the number is left undefined. */
  function ReadBase16(s: string): Option<nat> {
    var digits := if s != "" && s[0] == '+' then s[1..] else s;
    if digits != "" && AllHex(digits) then Some(Value16(digits)) else None
  }

  function Shorten(text: string): string {
    if |text| > MAX_LABEL then text[..MAX_LABEL] else text
  }

  function GenerateTenantSlotLabel(tenantId: string): Option<string> {
    var number := ReadBase16(RemoveHyphens(tenantId));
    if number.None? then None else Some(Shorten("t-" + Text36(number.value)))
  }

  /** 32 hex digits in any letter case, with hyphens anywhere (section 4 of RFC 9562). */
  predicate IsUuid(tenantId: string) {
    |RemoveHyphens(tenantId)| == 32 && AllHex(RemoveHyphens(tenantId))
  }

  /** The tenant ids that name the same UUID. */
  predicate SameUuid(a: string, b: string) {
    LowerCase(RemoveHyphens(a)) == LowerCase(RemoveHyphens(b))
  }

  // ----- arithmetic -------------------------------------------------------------------

  function Pow(b: nat, k: nat): nat {
    if k == 0 then 1 else b * Pow(b, k - 1)
  }

  lemma {:induction false} PowAdd(b: nat, j: nat, k: nat)
    ensures Pow(b, j + k) == Pow(b, j) * Pow(b, k)
  {
    if j > 0 {
      PowAdd(b, j - 1, k);
      assert Pow(b, j + k) == b * Pow(b, j - 1 + k);
      assert b * (Pow(b, j - 1) * Pow(b, k)) == (b * Pow(b, j - 1)) * Pow(b, k);
    }
  }

  /** A 128-bit number needs at most 25 digits in base 36. */
  lemma UuidsFitIn25Digits()
    ensures Pow(16, 32) < Pow(36, 25)
  {
    assert Pow(16, 2) == 16 * Pow(16, 1) && Pow(16, 1) == 16 * Pow(16, 0);
    assert Pow(16, 2) == 256;
    PowAdd(16, 2, 2);
    PowAdd(16, 4, 4);
    PowAdd(16, 8, 8);
    PowAdd(16, 16, 16);
    assert Pow(36, 2) == 36 * Pow(36, 1) && Pow(36, 1) == 36 * Pow(36, 0);
    PowAdd(36, 2, 1);
    PowAdd(36, 3, 3);
    PowAdd(36, 6, 6);
    PowAdd(36, 12, 12);
    PowAdd(36, 24, 1);
  }

  lemma {:induction false} Value16Bound(s: string)
    requires AllHex(s)
    ensures Value16(s) < Pow(16, |s|)
  {
    if s != "" {
      Value16Bound(s[..|s| - 1]);
    }
  }

  lemma {:induction false} Text36Length(n: nat, k: nat)
    requires k > 0 && n < Pow(36, k)
    ensures 0 < |Text36(n)| <= k
  {
    if n >= 36 {
      assert Pow(36, 1) == 36 * Pow(36, 0);
      assert n / 36 < Pow(36, k - 1);
      Text36Length(n / 36, k - 1);
    }
  }

  function Value36(s: string): int {
    if s == "" then 0
    else
      var c := s[|s| - 1];
      36 * Value36(s[..|s| - 1]) + (if c <= '9' then c as int - '0' as int else c as int - 'a' as int + 10)
  }

  /** Base-36 numerals are unique: reading one back gives its number. */
  lemma {:induction false} Text36ReadsBack(n: nat)
    ensures Value36(Text36(n)) == n
  {
    if n >= 36 {
      Text36ReadsBack(n / 36);
      var text := Text36(n);
      assert text[..|text| - 1] == Text36(n / 36) && text[|text| - 1] == Digit36(n % 36);
    } else {
      assert Text36(n)[..0] == "";
    }
  }

  lemma HexValueIgnoresCase(a: char, b: char)
    requires IsHex(a) && IsHex(b)
    ensures HexValue(a) == HexValue(b) <==> ToLower(a) == ToLower(b)
  {
  }

  /** Two hexadecimal numerals of one length have the same value exactly when they are equal
      up to letter case. */
  lemma {:induction false} Value16Exactly(a: string, b: string)
    requires |a| == |b| && AllHex(a) && AllHex(b)
    ensures Value16(a) == Value16(b) <==> LowerCase(a) == LowerCase(b)
  {
    if a != "" {
      var a', b' := a[..|a| - 1], b[..|b| - 1];
      Value16Exactly(a', b');
      HexValueIgnoresCase(a[|a| - 1], b[|b| - 1]);
      assert LowerCase(a) == LowerCase(a') + [ToLower(a[|a| - 1])];
      assert LowerCase(b) == LowerCase(b') + [ToLower(b[|b| - 1])];
      assert LowerCase(a)[..|a| - 1] == LowerCase(a') && LowerCase(b)[..|b| - 1] == LowerCase(b');
    }
  }

  // ----- which number is read and written ----------------------------------------------------

  lemma HexDigitsReadExactly(c: char)
    ensures IsHex(c) <==> c in "0123456789abcdefABCDEF"
    ensures IsHex(c) ==> "0123456789abcdef"[HexValue(c)] == ToLower(c) && Value16([c]) == HexValue(c)
  {
    if IsHex(c) { assert [c][..0] == ""; }
  }

  /** Reading is positional: what comes first weighs sixteen times as much for every digit after it. */
  lemma {:induction false} Value16Concat(a: string, b: string)
    requires AllHex(a) && AllHex(b)
    ensures AllHex(a + b) && Value16(a + b) == Value16(a) * Pow(16, |b|) + Value16(b)
    decreases |b|
  {
    if b == "" {
      assert a + b == a;
    } else {
      var front, n := b[..|b| - 1], |b| - 1;
      Value16Concat(a, front);
      assert (a + b)[..|a + b| - 1] == a + front && (a + b)[|a + b| - 1] == b[n];
      Distribute(Value16(a), Pow(16, n), Value16(front), HexValue(b[n]));
    }
  }

  lemma Distribute(v: nat, p: nat, w: nat, d: nat)
    ensures 16 * (v * p + w) + d == v * (16 * p) + (16 * w + d)
  {
  }

  /** Hyphens are dropped wherever they stand, and nothing else is. */
  lemma {:induction false} HyphensDropExactly(a: string, b: string)
    ensures RemoveHyphens("-") == "" && (forall c :: c != '-' ==> RemoveHyphens([c]) == [c])
    ensures RemoveHyphens(a + b) == RemoveHyphens(a) + RemoveHyphens(b)
    decreases |a|
  {
    if a == "" {
      assert a + b == b;
    } else {
      assert (a + b)[1..] == a[1..] + b;
      HyphensDropExactly(a[1..], b);
    }
  }

  lemma {:induction false} WithoutHyphensUnchanged(s: string)
    requires '-' !in s
    ensures RemoveHyphens(s) == s
  {
    if s != "" {
      assert s == [s[0]] + s[1..];
      WithoutHyphensUnchanged(s[1..]);
    }
  }

  /** The texts a number is read from: hexadecimal digits, perhaps after a plus sign. */
  lemma ReadBase16Exactly(s: string)
    ensures AllHex(s) && s != "" ==> ReadBase16(s) == Some(Value16(s)) && ReadBase16("+" + s) == Some(Value16(s))
    ensures ReadBase16(s).None? <==> s == "" || s == "+" || !AllHex(if s[0] == '+' then s[1..] else s)
  {
    assert ("+" + s)[1..] == s;
  }

  lemma Digit36Exactly(d: nat)
    requires d < 36
    ensures Digit36(d) == "0123456789abcdefghijklmnopqrstuvwxyz"[d] && Value36([Digit36(d)]) == d
  {
    assert [Digit36(d)][..0] == "";
  }

  /** A base-36 numeral: digits and lower-case letters, no zero in front. */
  predicate IsNumeral36(text: string) {
    && text != "" && (forall i :: 0 <= i < |text| ==> '0' <= text[i] <= '9' || 'a' <= text[i] <= 'z')
    && (|text| > 1 ==> text[0] != '0')
  }

  lemma {:induction false} Text36IsNumeral(n: nat)
    ensures IsNumeral36(Text36(n)) && (n > 0 ==> Text36(n)[0] != '0')
  {
    if n >= 36 { Text36IsNumeral(n / 36); }
  }

  lemma {:induction false} NumeralIsPositive(text: string)
    requires IsNumeral36(text) && text[0] != '0'
    ensures Value36(text) > 0
  {
    if |text| > 1 { NumeralIsPositive(text[..|text| - 1]); }
  }

  /** Each number has one numeral: writing what a numeral says gives the numeral back. */
  lemma {:induction false} NumeralsAreUnique(text: string)
    requires IsNumeral36(text)
    ensures Value36(text) >= 0 && Text36(Value36(text)) == text
  {
    var n := |text| - 1;
    var front, d := text[..n], DigitOf(text[n]);
    if n == 0 {
      assert front == "" && text == [text[0]];
    } else {
      NumeralsAreUnique(front);
      NumeralIsPositive(front);
      LastDigit(Value36(front), d);
      assert text == front + [text[n]];
    }
  }

  /** The digit that a character of a numeral stands for. */
  function DigitOf(c: char): (d: nat)
    requires '0' <= c <= '9' || 'a' <= c <= 'z'
    ensures d < 36 && Digit36(d) == c && Value36([c]) == d
  {
    assert [c][..0] == "";
    if c <= '9' then c as int - '0' as int else c as int - 'a' as int + 10
  }

  lemma LastDigit(f: nat, d: nat)
    requires f > 0 && d < 36
    ensures var v := 36 * f + d; v >= 36 && v / 36 == f && v % 36 == d
  {
  }

  // ----- the label of a UUID --------------------------------------------------------------

  lemma UuidLabel(tenantId: string)
    requires IsUuid(tenantId)
    ensures var label' := GenerateTenantSlotLabel(tenantId);
            && label' == Some("t-" + Text36(Value16(RemoveHyphens(tenantId))))
            && 3 <= |label'.value| <= 27
  {
    var digits := RemoveHyphens(tenantId);
    assert IsHex(digits[0]);
    Value16Bound(digits);
    UuidsFitIn25Digits();
    Text36Length(Value16(digits), 25);
  }

  /** For every UUID the label is "t-" and the base-36 numeral of the number its digits spell. */
  lemma LabelIsTheNumeral(tenantId: string, text: string)
    requires IsUuid(tenantId) && IsNumeral36(text)
    ensures GenerateTenantSlotLabel(tenantId) == Some("t-" + text) <==> Value36(text) == Value16(RemoveHyphens(tenantId))
  {
    var n := Value16(RemoveHyphens(tenantId));
    UuidLabel(tenantId);
    NumeralsAreUnique(text);
    Text36ReadsBack(n);
    assert ("t-" + text)[2..] == text && ("t-" + Text36(n))[2..] == Text36(n);
  }

  lemma GroupFollows(front: string, group: string)
    requires '-' !in group
    ensures RemoveHyphens(front + "-" + group) == RemoveHyphens(front) + group
  {
    HyphensDropExactly(front + "-", group);
    HyphensDropExactly(front, "-");
    WithoutHyphensUnchanged(group);
  }

  /** The usual form of a UUID, in five groups. */
  function Grouped(a: string, b: string, c: string, d: string, e: string): string {
    a + "-" + b + "-" + c + "-" + d + "-" + e
  }

  lemma GroupsJoin(a: string, b: string, c: string, d: string, e: string)
    requires '-' !in a && '-' !in b && '-' !in c && '-' !in d && '-' !in e
    ensures RemoveHyphens(Grouped(a, b, c, d, e)) == a + b + c + d + e
  {
    WithoutHyphensUnchanged(a);
    GroupFollows(a, b);
    GroupFollows(a + "-" + b, c);
    GroupFollows(a + "-" + b + "-" + c, d);
    GroupFollows(a + "-" + b + "-" + c + "-" + d, e);
  }

  function ZeroDigits(n: nat): string {
    seq(n, _ => '0')
  }

  /** Leading zeros do not show: the UUID that spells one decimal digit has it as its label. */
  lemma LabelOfOneDigit(c: char)
    requires '0' <= c <= '9'
    ensures GenerateTenantSlotLabel(Grouped("00000000", "0000", "0000", "0000", "00000000000" + [c])) == Some("t-" + [c])
  {
    var tenantId := Grouped("00000000", "0000", "0000", "0000", "00000000000" + [c]);
    GroupsJoin("00000000", "0000", "0000", "0000", "00000000000" + [c]);
    assert RemoveHyphens(tenantId) == ZeroDigits(31) + [c];
    ZerosCountNothing(31);
    Value16Concat(ZeroDigits(31), [c]);
    HexDigitsReadExactly(c);
    assert DigitOf(c) == HexValue(c);
    LabelIsTheNumeral(tenantId, [c]);
  }

  lemma LabelOfUuidOne()
    ensures GenerateTenantSlotLabel("00000000-0000-0000-0000-000000000001") == Some("t-1")
  {
    LabelOfOneDigit('1');
    UuidOneGrouped();
    assert "t-" + ['1'] == "t-1";
  }

  lemma UuidOneGrouped()
    ensures Grouped("00000000", "0000", "0000", "0000", "00000000000" + ['1']) == "00000000-0000-0000-0000-000000000001"
  {
    assert "00000000" + "-" + "0000" == "00000000-0000";
    assert "00000000-0000" + "-" + "0000" == "00000000-0000-0000";
    assert "00000000-0000-0000" + "-" + "0000" == "00000000-0000-0000-0000";
    assert "00000000-0000-0000-0000" + "-" + ("00000000000" + ['1']) == "00000000-0000-0000-0000-000000000001";
  }

  lemma {:induction false} ZerosCountNothing(n: nat)
    ensures AllHex(ZeroDigits(n)) && Value16(ZeroDigits(n)) == 0
  {
    if n > 0 {
      assert ZeroDigits(n)[..n - 1] == ZeroDigits(n - 1);
      ZerosCountNothing(n - 1);
    }
  }

  /** Padding fills the 32 characters with blanks and changes nothing before them. */
  lemma PaddedExactly(text: string)
    requires |text| <= 32
    ensures |Padded(text)| == 32 && text <= Padded(text) && forall i :: |text| <= i < 32 ==> Padded(text)[i] == ' '
  {
  }

  /** Two UUIDs get one label exactly when they are equal up to hyphens and letter case. */
  lemma LabelsTellTenantsApart(a: string, b: string)
    requires IsUuid(a) && IsUuid(b)
    ensures GenerateTenantSlotLabel(a) == GenerateTenantSlotLabel(b) <==> SameUuid(a, b)
  {
    var x, y := RemoveHyphens(a), RemoveHyphens(b);
    UuidLabel(a);
    UuidLabel(b);
    Value16Exactly(x, y);
    Text36ReadsBack(Value16(x));
    Text36ReadsBack(Value16(y));
    var p, q := "t-" + Text36(Value16(x)), "t-" + Text36(Value16(y));
    assert p[2..] == Text36(Value16(x)) && q[2..] == Text36(Value16(y));
  }

  /** Any text the number can be read from: the label is cut exactly when the number has more
      than 30 digits in base 36. */
  lemma TruncatedExactly(tenantId: string)
    requires ReadBase16(RemoveHyphens(tenantId)).Some?
    ensures var n := ReadBase16(RemoveHyphens(tenantId)).value;
            && (GenerateTenantSlotLabel(tenantId).value != "t-" + Text36(n) <==> n >= Pow(36, 30))
            && |GenerateTenantSlotLabel(tenantId).value| <= MAX_LABEL
  {
    var n := ReadBase16(RemoveHyphens(tenantId)).value;
    if n < Pow(36, 30) {
      Text36Length(n, 30);
    } else {
      Text36LongEnough(n, 30);
    }
  }

  lemma {:induction false} Text36LongEnough(n: nat, k: nat)
    requires n >= Pow(36, k)
    ensures |Text36(n)| > k
  {
    if k > 0 {
      assert Pow(36, k) >= 36 by { PowPositive(36, k - 1); }
      Text36LongEnough(n / 36, k - 1);
    }
  }

  lemma {:induction false} PowPositive(b: nat, k: nat)
    requires b > 0
    ensures Pow(b, k) > 0
  {
    if k > 0 { PowPositive(b, k - 1); }
  }

  // ----- finding a tenant's slot again --------------------------------------------------------

  function Blanks(n: nat): string {
    seq(n, _ => ' ')
  }

  /** A label as CK_TOKEN_INFO stores it: padded to 32 characters, not terminated. */
  function Padded(text: string): string {
    if |text| < MAX_LABEL then text + Blanks(MAX_LABEL - |text|) else text
  }

  /** The text without its trailing blanks. */
  function WithoutTrailingBlanks(s: string): string {
    if s == "" || s[|s| - 1] != ' ' then s else WithoutTrailingBlanks(s[..|s| - 1])
  }

  method TrimPKCS11String(s: string) returns (r: string)
    ensures r == WithoutTrailingBlanks(s)
    ensures r <= s && (r != "" ==> r[|r| - 1] != ' ') && forall k :: |r| <= k < |s| ==> s[k] == ' '
  {
    var i := |s| - 1;
    assert s[..|s|] == s;
    while i >= 0
      invariant -1 <= i < |s|
      invariant forall k :: i < k < |s| ==> s[k] == ' '
      invariant WithoutTrailingBlanks(s) == WithoutTrailingBlanks(s[..i + 1])
    {
      if s[i] != ' ' {
        return s[..i + 1];
      }
      assert s[..i + 1][..i] == s[..i];
      i := i - 1;
    }
    return "";
  }

  /** Trimming undoes padding for every text that does not itself end in a blank. */
  lemma {:induction false} TrimUndoesPadding(text: string, n: nat)
    requires text == "" || text[|text| - 1] != ' '
    ensures WithoutTrailingBlanks(text + Blanks(n)) == text
  {
    if n == 0 {
      assert text + Blanks(0) == text;
    } else {
      var padded := text + Blanks(n);
      assert padded[..|padded| - 1] == text + Blanks(n - 1);
      assert padded[|padded| - 1] == ' ';
      TrimUndoesPadding(text, n - 1);
    }
  }

  predicate Shows(token: TokenSlot, wanted: string) {
    token.info.Some? && WithoutTrailingBlanks(token.info.value) == wanted
  }

  /** The first readable token with that label, up to trailing blanks. */
  function SlotOfLabel(tokens: seq<TokenSlot>, wanted: string): Option<nat> {
    FirstSlot(tokens, (text: string) => WithoutTrailingBlanks(text) == wanted)
  }

  method FindSlotByLabel(tokens: seq<TokenSlot>, wanted: string) returns (found: Option<nat>)
    ensures found == SlotOfLabel(tokens, wanted)
  {
    for i := 0 to |tokens|
      invariant SlotOfLabel(tokens, wanted) == SlotOfLabel(tokens[i..], wanted)
    {
      if tokens[i].info.Some? {
        var text := TrimPKCS11String(tokens[i].info.value);
        if text == wanted {
          return Some(tokens[i].number);
        }
      }
    }
    return None;
  }

  /** Each token belongs to a tenant of its own and shows that tenant's padded label, or
      nothing; or it belongs to nobody and shows a text that is no tenant's label. */
  ghost predicate TokensOfTenants(tokens: seq<TokenSlot>, owners: seq<Option<string>>) {
    && |tokens| == |owners|
    && (forall i :: 0 <= i < |owners| && owners[i].Some? ==>
          && IsUuid(owners[i].value)
          && tokens[i].info in {None, Some(Padded(GenerateTenantSlotLabel(owners[i].value).value))})
    && (forall i :: 0 <= i < |owners| && owners[i].None? && tokens[i].info.Some? ==>
          IsNoLabel(WithoutTrailingBlanks(tokens[i].info.value)))
    && (forall i, j :: 0 <= i < j < |owners| && owners[i].Some? && owners[j].Some? ==>
          !SameUuid(owners[i].value, owners[j].value))
  }

  ghost predicate IsNoLabel(text: string) {
    forall id :: IsUuid(id) ==> GenerateTenantSlotLabel(id) != Some(text)
  }

  /** In whatever order and under whatever numbers the tokens are listed, looking for a
      tenant's label gives that tenant's slot, or nothing if its token cannot be read. */
  lemma EachTenantFindsItsOwnSlot(tokens: seq<TokenSlot>, owners: seq<Option<string>>, k: nat, tenantId: string)
    requires TokensOfTenants(tokens, owners)
    ensures Owns(owners, k, tenantId) ==>
              GenerateTenantSlotLabel(tenantId).Some?
              && SlotOfLabel(tokens, GenerateTenantSlotLabel(tenantId).value) == if tokens[k].info.Some? then Some(tokens[k].number) else None
  {
    if Owns(owners, k, tenantId) {
      UuidLabel(tenantId);
      var wanted := GenerateTenantSlotLabel(tenantId).value;
      forall i | 0 <= i < |tokens| && tokens[i].info.Some? ensures Shows(tokens[i], wanted) <==> i == k {
        TokenMatchesExactly(tokens, owners, k, tenantId, i);
      }
      FirstMatchOnly(tokens, wanted, k, 0);
      assert tokens[0..] == tokens;
    }
  }

  /** Token `k` is the tenant's. */
  predicate Owns(owners: seq<Option<string>>, k: nat, tenantId: string) {
    k < |owners| && owners[k].Some? && IsUuid(tenantId) && SameUuid(tenantId, owners[k].value)
  }

  /** A token shows the wanted label exactly when it is readable and the wanted tenant's. */
  lemma TokenMatchesExactly(tokens: seq<TokenSlot>, owners: seq<Option<string>>, k: nat, tenantId: string, i: nat)
    requires TokensOfTenants(tokens, owners) && i < |tokens|
    ensures Owns(owners, k, tenantId) && tokens[i].info.Some? ==>
              GenerateTenantSlotLabel(tenantId).Some? && (Shows(tokens[i], GenerateTenantSlotLabel(tenantId).value) <==> i == k)
  {
    if Owns(owners, k, tenantId) && tokens[i].info.Some? {
      UuidLabel(tenantId);
      if owners[i].Some? {
        PaddedLabelMatchesExactly(owners[i].value, tenantId);
      }
    }
  }

  /** Padding and trimming do not blur labels. */
  lemma PaddedLabelMatchesExactly(a: string, b: string)
    requires IsUuid(a) && IsUuid(b)
    ensures GenerateTenantSlotLabel(a).Some? && GenerateTenantSlotLabel(b).Some?
    ensures WithoutTrailingBlanks(Padded(GenerateTenantSlotLabel(a).value)) == GenerateTenantSlotLabel(b).value <==> SameUuid(a, b)
  {
    var own := GenerateTenantSlotLabel(a).value;
    UuidLabel(a);
    UuidLabel(b);
    LabelEndsInDigit(Value16(RemoveHyphens(a)));
    TrimUndoesPadding(own, MAX_LABEL - |own|);
    LabelsTellTenantsApart(a, b);
  }

  lemma LabelEndsInDigit(n: nat)
    ensures var text := "t-" + Text36(n); text[|text| - 1] != ' '
  {
  }

  lemma {:induction false} FirstMatchOnly(tokens: seq<TokenSlot>, wanted: string, k: nat, i: nat)
    requires k < |tokens| && i <= |tokens|
    requires forall j :: 0 <= j < |tokens| && tokens[j].info.Some? ==> (Shows(tokens[j], wanted) <==> j == k)
    ensures SlotOfLabel(tokens[i..], wanted) == if i <= k && tokens[k].info.Some? then Some(tokens[k].number) else None
    decreases |tokens| - i
  {
    if i < |tokens| {
      assert tokens[i..][0] == tokens[i] && tokens[i..][1..] == tokens[i + 1..];
      FirstMatchOnly(tokens, wanted, k, i + 1);
    }
  }
}
