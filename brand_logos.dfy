/**
 * The brand logo resolver: a product name is looked up in an ordered table of
 * brand names and their web domains, first exactly, then by a case-insensitive
 * "the name contains the brand" search in table order; the logo is the favicon
 * service's 128-pixel image for the domain found, or the empty string.
 */
module BrandLogos {
  import opened Wrappers
  import opened Strings

  /** The brand table, in the order its entries are written (the order `Object.entries` yields). */
  const BRAND_DOMAINS: seq<(string, string)> := [
    ("AJIO India", "ajio.com"),
    ("App Store & iTunes India", "apple.com"),
    ("Bigbasket India", "bigbasket.com"),
    ("Blink it India", "blinkit.com"),
    ("BlueStone Gold Jewellery India", "bluestone.com"),
    ("BookMyShow India", "bookmyshow.com"),
    ("Cleartrip India", "cleartrip.com"),
    ("Dominos India", "dominos.co.in"),
    ("Ease My Trip India", "easemytrip.com"),
    ("Flipkart India", "flipkart.com"),
    ("Google Play India", "play.google.com"),
    ("Hindustan Petroleum India", "hindustanpetroleum.com"),
    ("MakeMyTrip India", "makemytrip.com"),
    ("Phonepe India", "phonepe.com"),
    ("PlayStation Store India", "playstation.com"),
    ("Reliance JioMart India", "jiomart.com"),
    ("Shoppers Stop India", "shoppersstop.com"),
    ("Steam India", "store.steampowered.com"),
    ("Swiggy Money India", "swiggy.com"),
    ("Tanishq Gold Coin India", "tanishq.co.in"),
    ("Tanishq Gold Jewellery India", "tanishq.co.in"),
    ("Uber Vouchers India", "uber.com"),
    ("UniPin Voucher India", "unipin.com"),
    ("Valorant India", "playvalorant.com"),
    ("Zomato India", "zomato.com")
  ]

  const LOGO_PREFIX := "https://www.google.com/s2/favicons?domain="
  const LOGO_SUFFIX := "&sz=128"

  /** `logoUrl`: the favicon service's address for a domain, at 128 pixels. */
  function LogoUrl(domain: string): (url: string)
    ensures |url| > 0
  {
    LOGO_PREFIX + domain + LOGO_SUFFIX
  }

  /** The domain is read back from its address, so different domains give different addresses. */
  lemma LogoUrlInjective(d1: string, d2: string)
    ensures LogoUrl(d1) == LogoUrl(d2) ==> d1 == d2
  {
    if LogoUrl(d1) == LogoUrl(d2) {
      var n := |LOGO_PREFIX|;
      assert |d1| == |d2|;
      assert LogoUrl(d1)[n..n + |d1|] == d1;
      assert LogoUrl(d2)[n..n + |d2|] == d2;
    }
  }

  // ---------------------------------------------------------------------
  // Lookups over an ordered table

  /** The table's own entry for `key`: the value of the first entry with that key. */
  function Lookup(table: seq<(string, string)>, key: string): (r: Option<string>)
    ensures r.None? <==> forall i :: 0 <= i < |table| ==> table[i].0 != key
    ensures r.Some? ==> exists i :: 0 <= i < |table| && table[i] == (key, r.value)
  {
    if |table| == 0 then None
    else if table[0].0 == key then Some(table[0].1)
    else
      var r := Lookup(table[1..], key);
      assert r.Some? ==> table[1..][0..] == table[1..];
      r
  }

  /** The brand key of entry `i` occurs in `name`, both lowered. */
  predicate KeyMatches(table: seq<(string, string)>, name: string, i: int)
    requires 0 <= i < |table|
  {
    Includes(AsciiLower(name), AsciiLower(table[i].0))
  }

  /** The `for...of` search: the value of the first entry, in table order, whose key the name contains. */
  function FuzzyFind(table: seq<(string, string)>, name: string): Option<string> {
    if |table| == 0 then None
    else if Includes(AsciiLower(name), AsciiLower(table[0].0)) then Some(table[0].1)
    else FuzzyFind(table[1..], name)
  }

  /** The search finds nothing exactly when no key matches, and otherwise the value of the first match. */
  lemma {:induction false} FuzzyFindSpec(table: seq<(string, string)>, name: string)
    ensures FuzzyFind(table, name).None? <==> forall i :: 0 <= i < |table| ==> !KeyMatches(table, name, i)
    ensures FuzzyFind(table, name).Some? ==>
      exists i :: 0 <= i < |table| && KeyMatches(table, name, i) &&
        (forall j :: 0 <= j < i ==> !KeyMatches(table, name, j)) &&
        FuzzyFind(table, name).value == table[i].1
  {
    if |table| > 0 && !KeyMatches(table, name, 0) {
      var rest := table[1..];
      FuzzyFindSpec(rest, name);
      forall i | 0 <= i < |rest| ensures KeyMatches(rest, name, i) == KeyMatches(table, name, i + 1) {
        assert rest[i] == table[i + 1];
      }
      if FuzzyFind(rest, name).Some? {
        var i :| 0 <= i < |rest| && KeyMatches(rest, name, i) &&
          (forall j :: 0 <= j < i ==> !KeyMatches(rest, name, j)) &&
          FuzzyFind(rest, name).value == rest[i].1;
        forall j | 0 <= j < i + 1 ensures !KeyMatches(table, name, j) {
          if j > 0 {
            assert !KeyMatches(rest, name, j - 1);
          }
        }
      } else {
        forall i | 0 <= i < |table| ensures !KeyMatches(table, name, i) {
          if i > 0 {
            assert !KeyMatches(rest, name, i - 1);
          }
        }
      }
    }
  }

  /** The first match is unique: a match with no match before it is the one the search returns. */
  lemma FuzzyFindFirst(table: seq<(string, string)>, name: string, i: int)
    requires 0 <= i < |table| && KeyMatches(table, name, i)
    requires forall j :: 0 <= j < i ==> !KeyMatches(table, name, j)
    ensures FuzzyFind(table, name) == Some(table[i].1)
  {
    FuzzyFindSpec(table, name);
    var k :| 0 <= k < |table| && KeyMatches(table, name, k) &&
      (forall j :: 0 <= j < k ==> !KeyMatches(table, name, j)) &&
      FuzzyFind(table, name).value == table[k].1;
    assert k == i;
  }

  // ---------------------------------------------------------------------
  // getHighResLogo

  /**
   * The resolver over a table: a non-empty exact entry gives its logo; otherwise
   * the first entry whose key the name contains, ignoring case; otherwise the
   * empty string.
   */
  function Resolve(table: seq<(string, string)>, name: string): string {
    var exact := Lookup(table, name);
    if exact.Some? && |exact.value| > 0 then LogoUrl(exact.value)
    else
      match FuzzyFind(table, name)
      case Some(domain) => LogoUrl(domain)
      case None => ""
  }

  /** Keys are distinct and domains non-empty, as in an object literal of non-empty strings. */
  predicate WellFormed(table: seq<(string, string)>) {
    && (forall i, j :: 0 <= i < j < |table| ==> table[i].0 != table[j].0)
    && (forall i :: 0 <= i < |table| ==> |table[i].1| > 0)
  }

  /** A key of the table gives the logo of its own domain. */
  lemma ResolveExact(table: seq<(string, string)>, i: int)
    requires WellFormed(table) && 0 <= i < |table|
    ensures Resolve(table, table[i].0) == LogoUrl(table[i].1)
  {
    var exact := Lookup(table, table[i].0);
    var k :| 0 <= k < |table| && table[k] == (table[i].0, exact.value);
    assert k == i;
  }

  /** Any other name gives the logo of the first entry it matches, in table order, or nothing. */
  lemma ResolveFuzzy(table: seq<(string, string)>, name: string)
    requires forall i :: 0 <= i < |table| ==> table[i].0 != name
    ensures forall i :: (0 <= i < |table| && KeyMatches(table, name, i) &&
      (forall j :: 0 <= j < i ==> !KeyMatches(table, name, j))) ==> Resolve(table, name) == LogoUrl(table[i].1)
    ensures (forall i :: 0 <= i < |table| ==> !KeyMatches(table, name, i)) ==> Resolve(table, name) == ""
  {
    FuzzyFindSpec(table, name);
    forall i | 0 <= i < |table| && KeyMatches(table, name, i) && (forall j :: 0 <= j < i ==> !KeyMatches(table, name, j))
      ensures Resolve(table, name) == LogoUrl(table[i].1)
    {
      FuzzyFindFirst(table, name, i);
    }
  }

  /** The logo is empty exactly when no key occurs in the name, ignoring case: an exact key occurs in itself. */
  lemma ResolveEmptyIff(table: seq<(string, string)>, name: string)
    ensures Resolve(table, name) == "" <==> forall i :: 0 <= i < |table| ==> !KeyMatches(table, name, i)
  {
    FuzzyFindSpec(table, name);
    var exact := Lookup(table, name);
    if exact.Some? {
      var k :| 0 <= k < |table| && table[k] == (name, exact.value);
      IncludesSelf(AsciiLower(name));
      assert KeyMatches(table, name, k);
    }
  }

  /** Every logo found is the address of some domain in the table. */
  lemma ResolveFromTable(table: seq<(string, string)>, name: string)
    ensures Resolve(table, name) != "" ==> exists i :: 0 <= i < |table| && Resolve(table, name) == LogoUrl(table[i].1)
  {
    FuzzyFindSpec(table, name);
  }

  /** Matching is brand-inside-name: a name shorter than every key finds nothing. */
  lemma ResolveShortName(table: seq<(string, string)>, name: string)
    requires forall i :: 0 <= i < |table| ==> |name| < |table[i].0|
    ensures Resolve(table, name) == ""
  {
    forall i | 0 <= i < |table| ensures !KeyMatches(table, name, i) {
      IncludesShorter(AsciiLower(name), AsciiLower(table[i].0));
    }
    ResolveEmptyIff(table, name);
  }

  /**
   * `getHighResLogo`, as written: the exact lookup indexes the table object, so
   * it also reaches members inherited from `Object.prototype`. For every name
   * that is a brand or not an inherited member, it is the resolver above.
   */
  function GetHighResLogo(name: string): (url: string)
    ensures Lookup(BRAND_DOMAINS, name).Some? || InheritedMember(name).None? ==> url == Resolve(BRAND_DOMAINS, name)
    ensures Lookup(BRAND_DOMAINS, name).None? && InheritedMember(name).Some? ==> url == LogoUrl(InheritedMember(name).value)
  {
    ResolveAsWrittenAgrees(BRAND_DOMAINS, name);
    ResolveAsWritten(BRAND_DOMAINS, name)
  }

  /** No two entries of the brand table share a key. */
  lemma KeysDistinct()
    ensures forall i, j :: 0 <= i < j < |BRAND_DOMAINS| ==> BRAND_DOMAINS[i].0 != BRAND_DOMAINS[j].0
  {
  }

  /** Every domain of the brand table is non-empty, so an exact hit is truthy. */
  lemma DomainsNonEmpty()
    ensures forall i :: 0 <= i < |BRAND_DOMAINS| ==> |BRAND_DOMAINS[i].1| > 0
  {
  }

  /** The shortest brand name has ten characters ("AJIO India"). */
  lemma KeysAtLeastTen()
    ensures forall i :: 0 <= i < |BRAND_DOMAINS| ==> |BRAND_DOMAINS[i].0| >= 10
  {
  }

  /** A brand name gives the logo of its domain. */
  lemma ExactBrandLogo(i: int)
    requires 0 <= i < |BRAND_DOMAINS|
    ensures GetHighResLogo(BRAND_DOMAINS[i].0) == LogoUrl(BRAND_DOMAINS[i].1)
  {
    KeysDistinct();
    DomainsNonEmpty();
    ResolveExact(BRAND_DOMAINS, i);
  }

  /** "Zomato" is shorter than every brand name, so it finds no logo. */
  lemma ZomatoAlone()
    ensures GetHighResLogo("Zomato") == ""
  {
    InheritedNamesStartLower("Zomato");
    KeysAtLeastTen();
    ResolveShortName(BRAND_DOMAINS, "Zomato");
  }

  /** A character of the pattern that the text lacks rules the pattern out. */
  lemma IncludesNeedsChar(s: string, p: string, c: char)
    requires c in p && c !in s
    ensures !Includes(s, p)
  {
  }

  /** A character that no character of `s` lowers to is missing from the lowered string. */
  lemma LoweredLacks(s: string, c: char)
    requires forall i :: 0 <= i < |s| ==> AsciiLowerChar(s[i]) != c
    ensures c !in AsciiLower(s)
  {
  }

  /** Lowering commutes with taking a prefix. */
  lemma LoweredPrefix(s: string, k: nat)
    requires k <= |s|
    ensures AsciiLower(s)[..k] == AsciiLower(s[..k])
  {
  }

  /** The letters of "Zomato India Extra Pack", lowered. */
  const PACK_LETTERS := "zomato india extra pack"

  /** Every character of `name`, lowered, is one of PACK_LETTERS. */
  ghost predicate OnlyPackLetters(name: string) {
    forall i :: 0 <= i < |name| ==> AsciiLowerChar(name[i]) in PACK_LETTERS
  }

  /** Brand `j` has, at `pos`, a letter outside PACK_LETTERS, so it does not occur in such a name. */
  lemma BrandLacksLetter(name: string, j: nat, pos: nat, c: char)
    requires OnlyPackLetters(name)
    requires j < |BRAND_DOMAINS| && pos < |BRAND_DOMAINS[j].0|
    requires AsciiLowerChar(BRAND_DOMAINS[j].0[pos]) == c && c !in PACK_LETTERS
    ensures !KeyMatches(BRAND_DOMAINS, name, j)
  {
    var key := AsciiLower(BRAND_DOMAINS[j].0);
    assert key[pos] in key;
    LoweredLacks(name, c);
    IncludesNeedsChar(AsciiLower(name), key, c);
  }

  // The 24 brands before "Zomato India" are checked against MISSING_LETTERS in
  // chunks of three, each a plain case split, so that no single proof has to
  // unfold the whole table; MissingLettersCorrect gathers the chunks.

  /** For each brand before "Zomato India": a position in its name and the letter there, lowered, that PACK_LETTERS lacks. */
  const MISSING_LETTERS: seq<(nat, char)> := [
    (1, 'j'), (4, 's'), (0, 'b'), (0, 'b'), (0, 'b'), (0, 'b'),
    (1, 'l'), (6, 's'), (2, 's'), (0, 'f'), (0, 'g'), (0, 'h'),
    (5, 'y'), (1, 'h'), (1, 'l'), (2, 'l'), (0, 's'), (0, 's'),
    (0, 's'), (4, 's'), (4, 's'), (0, 'u'), (0, 'u'), (0, 'v')
  ]

  /** MISSING_LETTERS is right about brands 0 to 2. */
  lemma MissingLetters0To3(j: nat)
    requires 0 <= j < 3
    ensures MISSING_LETTERS[j].0 < |BRAND_DOMAINS[j].0|
    ensures AsciiLowerChar(BRAND_DOMAINS[j].0[MISSING_LETTERS[j].0]) == MISSING_LETTERS[j].1
    ensures MISSING_LETTERS[j].1 !in PACK_LETTERS
  {
    if j == 0 {
    } else if j == 1 {
    } else {
    }
  }

  /** MISSING_LETTERS is right about brands 3 to 5. */
  lemma MissingLetters3To6(j: nat)
    requires 3 <= j < 6
    ensures MISSING_LETTERS[j].0 < |BRAND_DOMAINS[j].0|
    ensures AsciiLowerChar(BRAND_DOMAINS[j].0[MISSING_LETTERS[j].0]) == MISSING_LETTERS[j].1
    ensures MISSING_LETTERS[j].1 !in PACK_LETTERS
  {
    if j == 3 {
    } else if j == 4 {
    } else {
    }
  }

  /** MISSING_LETTERS is right about brands 6 to 8. */
  lemma MissingLetters6To9(j: nat)
    requires 6 <= j < 9
    ensures MISSING_LETTERS[j].0 < |BRAND_DOMAINS[j].0|
    ensures AsciiLowerChar(BRAND_DOMAINS[j].0[MISSING_LETTERS[j].0]) == MISSING_LETTERS[j].1
    ensures MISSING_LETTERS[j].1 !in PACK_LETTERS
  {
    if j == 6 {
    } else if j == 7 {
    } else {
    }
  }

  /** MISSING_LETTERS is right about brands 9 to 11. */
  lemma MissingLetters9To12(j: nat)
    requires 9 <= j < 12
    ensures MISSING_LETTERS[j].0 < |BRAND_DOMAINS[j].0|
    ensures AsciiLowerChar(BRAND_DOMAINS[j].0[MISSING_LETTERS[j].0]) == MISSING_LETTERS[j].1
    ensures MISSING_LETTERS[j].1 !in PACK_LETTERS
  {
    if j == 9 {
    } else if j == 10 {
    } else {
    }
  }

  /** MISSING_LETTERS is right about brands 12 to 14. */
  lemma MissingLetters12To15(j: nat)
    requires 12 <= j < 15
    ensures MISSING_LETTERS[j].0 < |BRAND_DOMAINS[j].0|
    ensures AsciiLowerChar(BRAND_DOMAINS[j].0[MISSING_LETTERS[j].0]) == MISSING_LETTERS[j].1
    ensures MISSING_LETTERS[j].1 !in PACK_LETTERS
  {
    if j == 12 {
    } else if j == 13 {
    } else {
    }
  }

  /** MISSING_LETTERS is right about brands 15 to 17. */
  lemma MissingLetters15To18(j: nat)
    requires 15 <= j < 18
    ensures MISSING_LETTERS[j].0 < |BRAND_DOMAINS[j].0|
    ensures AsciiLowerChar(BRAND_DOMAINS[j].0[MISSING_LETTERS[j].0]) == MISSING_LETTERS[j].1
    ensures MISSING_LETTERS[j].1 !in PACK_LETTERS
  {
    if j == 15 {
    } else if j == 16 {
    } else {
    }
  }

  /** MISSING_LETTERS is right about brands 18 to 20. */
  lemma MissingLetters18To21(j: nat)
    requires 18 <= j < 21
    ensures MISSING_LETTERS[j].0 < |BRAND_DOMAINS[j].0|
    ensures AsciiLowerChar(BRAND_DOMAINS[j].0[MISSING_LETTERS[j].0]) == MISSING_LETTERS[j].1
    ensures MISSING_LETTERS[j].1 !in PACK_LETTERS
  {
    if j == 18 {
    } else if j == 19 {
    } else {
    }
  }

  /** MISSING_LETTERS is right about brands 21 to 23. */
  lemma MissingLetters21To24(j: nat)
    requires 21 <= j < 24
    ensures MISSING_LETTERS[j].0 < |BRAND_DOMAINS[j].0|
    ensures AsciiLowerChar(BRAND_DOMAINS[j].0[MISSING_LETTERS[j].0]) == MISSING_LETTERS[j].1
    ensures MISSING_LETTERS[j].1 !in PACK_LETTERS
  {
    if j == 21 {
    } else if j == 22 {
    } else {
    }
  }

  /** Each entry of MISSING_LETTERS is right about its brand. */
  lemma MissingLettersCorrect(j: nat)
    requires j < 24
    ensures MISSING_LETTERS[j].0 < |BRAND_DOMAINS[j].0|
    ensures AsciiLowerChar(BRAND_DOMAINS[j].0[MISSING_LETTERS[j].0]) == MISSING_LETTERS[j].1
    ensures MISSING_LETTERS[j].1 !in PACK_LETTERS
  {
    if j < 3 {
      MissingLetters0To3(j);
    } else if j < 6 {
      MissingLetters3To6(j);
    } else if j < 9 {
      MissingLetters6To9(j);
    } else if j < 12 {
      MissingLetters9To12(j);
    } else if j < 15 {
      MissingLetters12To15(j);
    } else if j < 18 {
      MissingLetters15To18(j);
    } else if j < 21 {
      MissingLetters18To21(j);
    } else {
      MissingLetters21To24(j);
    }
  }

  /** Every brand before "Zomato India" has a letter outside PACK_LETTERS. */
  lemma EarlierBrandsMissPackName(name: string)
    requires OnlyPackLetters(name)
    ensures forall j :: 0 <= j < 24 ==> !KeyMatches(BRAND_DOMAINS, name, j)
  {
    forall j | 0 <= j < 24 ensures !KeyMatches(BRAND_DOMAINS, name, j) {
      MissingLettersCorrect(j);
      BrandLacksLetter(name, j, MISSING_LETTERS[j].0, MISSING_LETTERS[j].1);
    }
  }

  /**
   * "Zomato India" followed by more letters of PACK_LETTERS is no brand name, but
   * it contains the last brand, "Zomato India", ignoring case, and no earlier one.
   * So it resolves to the zomato.com logo.
   */
  lemma ZomatoIndiaSuffixed(rest: string)
    requires |rest| > 0 && OnlyPackLetters(rest)
    ensures GetHighResLogo("Zomato India" + rest) == LogoUrl("zomato.com")
  {
    var name := BRAND_DOMAINS[24].0 + rest;
    assert BRAND_DOMAINS[24].0 == "Zomato India";
    ZomatoIndiaPackName(rest);
    EarlierBrandsMissPackName(name);
    ZomatoIndiaPrefixMatches(rest);
    PackNameNotABrand(rest);
    ResolveFuzzy(BRAND_DOMAINS, name);
    InheritedNamesStartLower(name);
    assert name[0] == 'Z';
  }

  /** "Zomato India" followed by letters of PACK_LETTERS is made of letters of PACK_LETTERS. */
  lemma ZomatoIndiaPackName(rest: string)
    requires OnlyPackLetters(rest)
    ensures OnlyPackLetters(BRAND_DOMAINS[24].0 + rest)
  {
    var key := BRAND_DOMAINS[24].0;
    var name := key + rest;
    assert key == "Zomato India";
    assert OnlyPackLetters(key);
    forall i | 0 <= i < |name| ensures AsciiLowerChar(name[i]) in PACK_LETTERS {
      if i >= |key| {
        assert name[i] == rest[i - |key|];
      } else {
        assert name[i] == key[i];
      }
    }
  }

  /** The brand "Zomato India" occurs at the start of any name it begins, ignoring case. */
  lemma ZomatoIndiaPrefixMatches(rest: string)
    ensures KeyMatches(BRAND_DOMAINS, BRAND_DOMAINS[24].0 + rest, 24)
  {
    var key := BRAND_DOMAINS[24].0;
    var name := key + rest;
    assert name[..|key|] == key;
    LoweredPrefix(name, |key|);
    assert OccursAt(AsciiLower(key), AsciiLower(name), 0);
  }

  /** "Zomato India" followed by letters of PACK_LETTERS is none of the brand names. */
  lemma PackNameNotABrand(rest: string)
    requires |rest| > 0 && OnlyPackLetters(rest)
    ensures forall j :: 0 <= j < |BRAND_DOMAINS| ==> BRAND_DOMAINS[j].0 != BRAND_DOMAINS[24].0 + rest
  {
    var name := BRAND_DOMAINS[24].0 + rest;
    ZomatoIndiaPackName(rest);
    EarlierBrandsMissPackName(name);
    forall j | 0 <= j < |BRAND_DOMAINS| ensures BRAND_DOMAINS[j].0 != name {
      if j < 24 {
        UnmatchedKeyDiffers(BRAND_DOMAINS, name, j);
      } else {
        assert |name| > |BRAND_DOMAINS[24].0|;
      }
    }
  }

  /** A key that does not occur in the name is not the name. */
  lemma UnmatchedKeyDiffers(table: seq<(string, string)>, name: string, j: int)
    requires 0 <= j < |table| && !KeyMatches(table, name, j)
    ensures table[j].0 != name
  {
    IncludesSelf(AsciiLower(name));
  }

  /** The worked example: "Zomato India Extra Pack" gives the zomato.com logo. */
  lemma ZomatoExtraPack()
    ensures GetHighResLogo("Zomato India Extra Pack") == LogoUrl("zomato.com")
  {
    var rest := " Extra Pack";
    assert OnlyPackLetters(rest);
    assert "Zomato India" + rest == "Zomato India Extra Pack";
    ZomatoIndiaSuffixed(rest);
  }

  // ---------------------------------------------------------------------
  // The exact lookup as written: `BRAND_DOMAINS[name]` on a plain object

  /** The other methods every plain object inherits from `Object.prototype`. */
  const INHERITED_METHODS: seq<string> := [
    "hasOwnProperty", "isPrototypeOf", "propertyIsEnumerable", "toLocaleString", "toString",
    "valueOf", "__defineGetter__", "__defineSetter__", "__lookupGetter__", "__lookupSetter__"
  ]

  /**
   * What indexing a plain object yields for a name it does not own but inherits
   * from `Object.prototype`, converted to a string as the template literal in
   * `logoUrl` converts it: a built-in method prints as its native source text,
   * `__proto__` as "[object Object]". The native texts are written as the V8
   * engine renders them; other engines lay them out differently.
   */
  function InheritedMember(name: string): Option<string> {
    if name == "__proto__" then Some("[object Object]")
    else if name == "constructor" then Some("function Object() { [native code] }")
    else if name in INHERITED_METHODS then Some("function " + name + "() { [native code] }")
    else None
  }

  /** Every inherited member's name starts with a lower-case letter or an underscore, unlike every brand. */
  lemma InheritedNamesStartLower(name: string)
    ensures InheritedMember(name).Some? ==> |name| > 0 && (name[0] == '_' || 'a' <= name[0] <= 'z')
  {
    if name in INHERITED_METHODS {
      var k :| 0 <= k < |INHERITED_METHODS| && INHERITED_METHODS[k] == name;
      assert name[0] == INHERITED_METHODS[k][0];
    }
  }

  /** Property access on the object literal: an own key first, then the prototype chain. */
  function LookupAsWritten(table: seq<(string, string)>, key: string): Option<string> {
    match Lookup(table, key)
    case Some(v) => Some(v)
    case None => InheritedMember(key)
  }

  /** `getHighResLogo` with the exact lookup as written, reaching inherited members. */
  function ResolveAsWritten(table: seq<(string, string)>, name: string): string {
    var exact := LookupAsWritten(table, name);
    if exact.Some? && |exact.value| > 0 then LogoUrl(exact.value)
    else
      match FuzzyFind(table, name)
      case Some(domain) => LogoUrl(domain)
      case None => ""
  }

  /** The two agree on every key of the table and every name that is not an inherited member. */
  lemma ResolveAsWrittenAgrees(table: seq<(string, string)>, name: string)
    ensures Lookup(table, name).Some? || InheritedMember(name).None? ==> ResolveAsWritten(table, name) == Resolve(table, name)
    ensures Lookup(table, name).None? && InheritedMember(name).Some? ==>
      ResolveAsWritten(table, name) == LogoUrl(InheritedMember(name).value)
  {
    if Lookup(table, name).None? && InheritedMember(name).Some? {
      assert |InheritedMember(name).value| > 0;
    }
  }

  /** A name the table does not own but the prototype has gives a logo built from the inherited member. */
  lemma ResolveAsWrittenInherited(table: seq<(string, string)>, name: string)
    requires forall i :: 0 <= i < |table| ==> table[i].0 != name
    requires InheritedMember(name).Some?
    ensures ResolveAsWritten(table, name) == LogoUrl(InheritedMember(name).value)
  {
  }

  lemma ToStringInherited()
    ensures InheritedMember("toString") == Some("function toString() { [native code] }")
  {
    assert |"toString"| == 8 != |"__proto__"|;
    assert |"toString"| != |"constructor"|;
    assert INHERITED_METHODS[4] == "toString";
    assert "toString" in INHERITED_METHODS;
    assert "toString" != "__proto__";
    assert "toString" != "constructor";
    var text := "function " + "toString" + "() { [native code] }";
    assert text == "function toString() { [native code] }";
    assert InheritedMember("toString") == Some(text);
  }

  /**
   * "toString" contains no brand name, so the documented result is the empty
   * string; the lookup as written finds the inherited method instead and builds
   * a favicon address around its source text.
   */
  lemma ToStringAsWritten()
    ensures GetHighResLogo("toString") == LogoUrl("function toString() { [native code] }")
    ensures Resolve(BRAND_DOMAINS, "toString") == ""
  {
    KeysAtLeastTen();
    ToStringInherited();
    ResolveAsWrittenInherited(BRAND_DOMAINS, "toString");
    ResolveShortName(BRAND_DOMAINS, "toString");
  }
}
