/**
 * Name normalisation of the JSON layout (`JsonLayout::friendlyName`): a
 * hierarchical OLAP name such as `[Store].[USA]` becomes the flat
 * identifier `store_usa`.
 */
module FriendlyNames {

  /** The characters `str_replace` deletes: `[`, `]` and `*`. */
  predicate IsDeleted(c: char)
  {
    c == '[' || c == ']' || c == '*'
  }

  /** Upper-case ASCII letter, the only characters `strtolower` changes. */
  predicate IsUpper(c: char)
  {
    'A' <= c <= 'Z'
  }

  function LowerChar(c: char): (r: char)
    ensures !IsUpper(r)
    ensures IsUpper(c) ==> r as int == c as int + 32
    ensures !IsUpper(c) ==> r == c
  {
    if IsUpper(c) then (c as int + 32) as char else c
  }

  /** A name that normalisation leaves alone: no deleted character, no dot, no upper case. */
  predicate IsFriendly(s: string)
  {
    forall i :: 0 <= i < |s| ==> !IsDeleted(s[i]) && s[i] != '.' && !IsUpper(s[i])
  }

  /** `str_replace(array('[', ']', '*'), '', $name)`. */
  function StripBrackets(s: string): (r: string)
    ensures |r| <= |s|
    ensures forall i :: 0 <= i < |r| ==> !IsDeleted(r[i])
  {
    if s == [] then []
    else (if IsDeleted(s[0]) then [] else [s[0]]) + StripBrackets(s[1..])
  }

  /** `strtolower`, over ASCII. */
  function ToLower(s: string): string
  {
    seq(|s|, i requires 0 <= i < |s| => LowerChar(s[i]))
  }

  /** Reference definition of the last step: every `.` becomes `_`. */
  function ReplaceDots(s: string): string
  {
    seq(|s|, i requires 0 <= i < |s| => if s[i] == '.' then '_' else s[i])
  }

  /** PHP `explode($delim, $s)` for a one-character delimiter. */
  function Explode(s: string, delim: char): (parts: seq<string>)
    ensures |parts| >= 1
    ensures forall p :: p in parts ==> delim !in p
  {
    if s == [] then [[]]
    else if s[0] == delim then [[]] + Explode(s[1..], delim)
    else
      var rest := Explode(s[1..], delim);
      [[s[0]] + rest[0]] + rest[1..]
  }

  /** PHP `implode($glue, $parts)`. */
  function Implode(glue: string, parts: seq<string>): string
  {
    if parts == [] then []
    else if |parts| == 1 then parts[0]
    else parts[0] + glue + Implode(glue, parts[1..])
  }

  /** `JsonLayout::friendlyName`: delete brackets and stars, lower-case, join the dot-separated parts with `_`. */
  function FriendlyName(name: string): string
  {
    Implode("_", Explode(ToLower(StripBrackets(name)), '.'))
  }

  lemma {:induction false} ImplodeExplode(s: string)
    ensures Implode("_", Explode(s, '.')) == ReplaceDots(s)
  {
    if s != [] {
      ImplodeExplode(s[1..]);
      var rest := Explode(s[1..], '.');
      assert ReplaceDots(s) == [if s[0] == '.' then '_' else s[0]] + ReplaceDots(s[1..]);
      if s[0] != '.' {
        if |rest| > 1 {
          assert Implode("_", [[s[0]] + rest[0]] + rest[1..])
              == [s[0]] + rest[0] + "_" + Implode("_", rest[1..]);
        }
      }
    }
  }

  /** friendlyName is the character-wise composition of its three steps. */
  lemma FriendlyNameSteps(name: string)
    ensures FriendlyName(name) == ReplaceDots(ToLower(StripBrackets(name)))
  {
    ImplodeExplode(ToLower(StripBrackets(name)));
  }

  /** The output holds no `[`, `]`, `*`, `.` and no upper-case ASCII letter. */
  lemma FriendlyNameIsFriendly(name: string)
    ensures IsFriendly(FriendlyName(name))
  {
    FriendlyNameSteps(name);
  }

  /** A name that is already friendly is returned unchanged. */
  lemma FriendlyNameFixesFriendly(s: string)
    requires IsFriendly(s)
    ensures FriendlyName(s) == s
  {
    assert StripBrackets(s) == s by { StripBracketsKeeps(s); }
    assert ToLower(s) == s;
    assert ReplaceDots(s) == s;
    FriendlyNameSteps(s);
  }

  lemma {:induction false} StripBracketsKeeps(s: string)
    requires forall i :: 0 <= i < |s| ==> !IsDeleted(s[i])
    ensures StripBrackets(s) == s
  {
    if s != [] {
      StripBracketsKeeps(s[1..]);
    }
  }

  lemma {:induction false} StripBracketsAppend(a: string, b: string)
    ensures StripBrackets(a + b) == StripBrackets(a) + StripBrackets(b)
  {
    if a == [] {
      assert a + b == b;
    } else {
      assert (a + b)[1..] == a[1..] + b;
      StripBracketsAppend(a[1..], b);
    }
  }

  /** Normalisation is idempotent, so normalising a header name twice is harmless. */
  lemma FriendlyNameIdempotent(name: string)
    ensures FriendlyName(FriendlyName(name)) == FriendlyName(name)
  {
    FriendlyNameIsFriendly(name);
    FriendlyNameFixesFriendly(FriendlyName(name));
  }

  /** A plain name part: nothing for `str_replace` to delete and no dot. */
  predicate IsPlainPart(s: string)
  {
    forall i :: 0 <= i < |s| ==> !IsDeleted(s[i]) && s[i] != '.'
  }

  /** A two-level qualified name `[a].[b]` becomes `a_b`, lower-cased. */
  lemma FriendlyNameOfQualified(a: string, b: string)
    requires IsPlainPart(a) && IsPlainPart(b)
    ensures FriendlyName("[" + a + "].[" + b + "]") == ToLower(a) + "_" + ToLower(b)
  {
    var name := "[" + a + "].[" + b + "]";
    assert name == ("[" + a + "]" + ".") + ("[" + b + "]");
    StripBracketsAppend("[" + a + "]" + ".", "[" + b + "]");
    StripBracketsAppend("[" + a + "]", ".");
    StripBracketsBracketed(a);
    StripBracketsBracketed(b);
    assert StripBrackets(".") == ".";
    assert ToLower(a + "." + b) == ToLower(a) + "." + ToLower(b);
    assert ReplaceDots(ToLower(a) + "." + ToLower(b)) == ToLower(a) + "_" + ToLower(b);
    FriendlyNameSteps(name);
  }

  /** The example `[Store].[USA]` becomes `store_usa`. */
  lemma FriendlyNameExample(store: string, usa: string)
    requires store == "Store" && usa == "USA"
    ensures FriendlyName("[" + store + "].[" + usa + "]") == "store_usa"
  {
    FriendlyNameOfQualified(store, usa);
    assert ToLower(store) == "store";
    assert ToLower(usa) == "usa";
  }

  lemma {:induction false} StripBracketsBracketed(x: string)
    requires forall i :: 0 <= i < |x| ==> !IsDeleted(x[i])
    ensures StripBrackets("[" + x + "]") == x
  {
    StripBracketsAppend("[" + x, "]");
    StripBracketsAppend("[", x);
    StripBracketsKeeps(x);
    assert StripBrackets("[") == [];
    assert StripBrackets("]") == [];
  }

  /** Normalisation is not injective: names differing only in bracket placement collide. */
  lemma FriendlyNameNotInjective()
    ensures "[a].b" != "a.[b]" && FriendlyName("[a].b") == FriendlyName("a.[b]")
  {
    FriendlyNameSteps("[a].b");
    FriendlyNameSteps("a.[b]");
    assert StripBrackets("[a].b") == "a.b";
    assert StripBrackets("a.[b]") == "a.b";
  }
}
