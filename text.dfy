/**
 * String helpers shared by the model: the byte-wise order Go uses to sort
 * and binary-search strings, whitespace trimming and lower-casing as done by
 * the `strings` package, joining, suffixes and `filepath.Ext`.
 */
module Text {

  /** Lexicographic order on code points. For valid UTF-8 it agrees with
      Go's byte-wise string comparison. */
  predicate Less(a: string, b: string)
    decreases |a|
  {
    |b| > 0 && (|a| == 0 || a[0] < b[0] || (a[0] == b[0] && Less(a[1..], b[1..])))
  }

  predicate LessOrEqual(a: string, b: string) {
    a == b || Less(a, b)
  }

  lemma {:induction false} LessIrreflexive(a: string)
    ensures !Less(a, a)
  {
    if |a| > 0 {
      LessIrreflexive(a[1..]);
    }
  }

  lemma {:induction false} LessTransitive(a: string, b: string, c: string)
    requires Less(a, b) && Less(b, c)
    ensures Less(a, c)
  {
    if |a| > 0 && a[0] == b[0] && b[0] == c[0] {
      LessTransitive(a[1..], b[1..], c[1..]);
    }
  }

  lemma {:induction false} LessTotal(a: string, b: string)
    ensures a == b || Less(a, b) || Less(b, a)
  {
    if |a| > 0 && |b| > 0 && a[0] == b[0] {
      LessTotal(a[1..], b[1..]);
      if a[1..] == b[1..] {
        assert a == [a[0]] + a[1..] && b == [b[0]] + b[1..];
      }
    }
  }

  lemma LessAsymmetric(a: string, b: string)
    requires Less(a, b)
    ensures !Less(b, a)
  {
    if Less(b, a) {
      LessTransitive(a, b, a);
      LessIrreflexive(a);
    }
  }

  /** `strings.Join`. */
  function Join(parts: seq<string>, sep: string): (r: string)
    ensures parts == [] ==> r == ""
    ensures |parts| == 1 ==> r == parts[0]
  {
    if parts == [] then ""
    else if |parts| == 1 then parts[0]
    else parts[0] + sep + Join(parts[1..], sep)
  }

  /** `unicode.IsSpace`: the characters `strings.TrimSpace` removes. */
  predicate IsSpace(c: char) {
    c == '\t' || c == '\n' || c == '\U{000B}' || c == '\U{000C}' || c == '\r' || c == ' '
    || c == '\U{0085}' || c == '\U{00A0}' || c == '\U{1680}' || ('\U{2000}' <= c <= '\U{200A}')
    || c == '\U{2028}' || c == '\U{2029}' || c == '\U{202F}' || c == '\U{205F}' || c == '\U{3000}'
  }

  function TrimLeft(s: string): (r: string)
    ensures |r| <= |s| && r == s[|s| - |r|..]
    ensures r == [] || !IsSpace(r[0])
  {
    if |s| > 0 && IsSpace(s[0]) then TrimLeft(s[1..]) else s
  }

  function TrimRight(s: string): (r: string)
    ensures |r| <= |s| && r == s[..|r|]
    ensures r == [] || !IsSpace(r[|r| - 1])
  {
    if |s| > 0 && IsSpace(s[|s| - 1]) then TrimRight(s[..|s| - 1]) else s
  }

  /** `strings.TrimSpace`. */
  function TrimSpace(s: string): string {
    TrimRight(TrimLeft(s))
  }

  /** `unicode.ToLower` on ASCII letters; every other character is kept. No
      character outside ASCII lower-cases to one of the letters y, e, s, n, o,
      so the answers `confirm` recognises are classified exactly. */
  function LowerChar(c: char): char {
    if 'A' <= c <= 'Z' then (c as int + 32) as char else c
  }

  function ToLower(s: string): (r: string)
    ensures |r| == |s| && forall i :: 0 <= i < |s| ==> r[i] == LowerChar(s[i])
  {
    if s == [] then [] else [LowerChar(s[0])] + ToLower(s[1..])
  }

  predicate HasSuffix(s: string, suffix: string) {
    |suffix| <= |s| && s[|s| - |suffix|..] == suffix
  }

  /** `strings.TrimSuffix`. */
  function TrimSuffix(s: string, suffix: string): (r: string)
    ensures HasSuffix(s, suffix) ==> r + suffix == s
    ensures !HasSuffix(s, suffix) ==> r == s
  {
    if HasSuffix(s, suffix) then s[..|s| - |suffix|] else s
  }

  /** `filepath.Ext` of a base name: the suffix from the last dot, or "". */
  function Ext(name: string): (r: string)
    ensures r == "" || (r[0] == '.' && HasSuffix(name, r) && '.' !in r[1..])
  {
    if name == [] then ""
    else if name[|name| - 1] == '.' then "."
    else
      var e := Ext(name[..|name| - 1]);
      if e == "" then "" else e + [name[|name| - 1]]
  }

  /** A file named `base + "." + ext` has extension `"." + ext` when `ext`
      holds no dot, and stripping that extension gives `base` back: the
      naming rule that lets an import find the collection an export wrote. */
  lemma ExtOfDotted(base: string, ext: string)
    requires '.' !in ext
    ensures Ext(base + "." + ext) == "." + ext
    ensures TrimSuffix(base + "." + ext, Ext(base + "." + ext)) == base
  {
    ExtOfDottedPrefix(base, ext, |ext|);
    assert ext[..|ext|] == ext;
    assert (base + "." + ext)[|base + "." + ext| - |"." + ext|..] == "." + ext;
  }

  lemma {:induction false} ExtOfDottedPrefix(base: string, ext: string, k: nat)
    requires '.' !in ext && k <= |ext|
    ensures Ext(base + "." + ext[..k]) == "." + ext[..k]
  {
    var name := base + "." + ext[..k];
    if k == 0 {
      assert name[|name| - 1] == '.';
    } else {
      assert ext[k - 1] in ext;
      assert name[|name| - 1] == ext[k - 1];
      assert name[..|name| - 1] == base + "." + ext[..k - 1];
      ExtOfDottedPrefix(base, ext, k - 1);
      assert ext[..k - 1] + [ext[k - 1]] == ext[..k];
    }
  }

  function DigitChar(d: nat): char
    requires d < 10
  {
    "0123456789"[d]
  }

  /** Decimal digits of `n`, zero-padded on the left to `width`. */
  function Decimal(n: nat, width: nat): (r: string)
    ensures |r| >= width && (n < 10 ==> |r| >= 1)
    ensures forall i :: 0 <= i < |r| ==> '0' <= r[i] <= '9'
    decreases n + width
  {
    if n < 10 && width <= 1 then [DigitChar(n)]
    else Decimal(n / 10, if width > 0 then width - 1 else 0) + [DigitChar(n % 10)]
  }

  lemma {:induction false} DecimalWidth(n: nat, width: nat)
    requires width >= 1
    requires n < Pow10(width)
    ensures |Decimal(n, width)| == width
    decreases width
  {
    if !(n < 10 && width <= 1) {
      DecimalWidth(n / 10, width - 1);
    }
  }

  function Pow10(k: nat): (r: nat)
    ensures r >= 1
  {
    if k == 0 then 1 else 10 * Pow10(k - 1)
  }
}
