/**
 * `normalizeProduto` (App.jsx:45-56): every raw catalog record, whatever it
 * holds, becomes a product with a fallback for each field. The rules for the
 * individual fields are separate functions so that each can be stated on its own.
 *
 * The slug pattern is written `/\\s+/g` in the source (a backslash doubled), which
 * read literally matches runs of backslashes followed by `s`; the model follows
 * the evident intent, runs of white space.
 */
module Products {
  import opened Wrappers
  import Text
  import Numeric
  import Csv

  /** A normalized catalog entry. `price` and `caseSize` are what `Number` yields. */
  datatype Product = Product(
    id: string,
    name: string,
    brand: string,
    price: real,
    unit: string,
    caseSize: real,
    caseOnly: bool,
    active: bool)

  /** `p.k || ''`: a missing key and an empty value are both "". */
  function Get(p: map<string, string>, k: string): (r: string)
    ensures k !in p ==> r == ""
    ensures k in p ==> r == p[k]
  {
    if k in p then p[k] else ""
  }

  /** A record built from a row: a header key reads the trimmed cell under its last occurrence. */
  lemma GetOfRecord(keys: seq<string>, cells: seq<string>, j: nat)
    requires Csv.LastOccurrence(keys, j)
    ensures Get(Csv.BuildRecord(keys, cells), keys[j]) == Csv.Cell(cells, j)
  {
    Csv.BuildRecordValue(keys, cells, j);
  }

  /** A record built from a row: a key absent from the header reads as "". */
  lemma GetOfMissingKey(keys: seq<string>, cells: seq<string>, k: string)
    requires k !in keys
    ensures Get(Csv.BuildRecord(keys, cells), k) == ""
  {
    Csv.BuildRecordKeys(keys, cells);
  }

  /** `a || b` on strings: `a` unless it is empty. */
  function Or(a: string, b: string): (r: string)
    ensures r == "" <==> a == "" && b == ""
  {
    if a != "" then a else b
  }

  /** `s.replace(c, d)` with a one-character pattern: only the first `c` is replaced. */
  function ReplaceFirst(s: string, c: char, d: char): (r: string)
    ensures c !in s ==> r == s
    ensures c in s ==> var k := Text.IndexOf(s, c); r == s[..k] + [d] + s[k + 1..]
    decreases |s|
  {
    if s == [] then []
    else if s[0] == c then [d] + s[1..]
    else
      var r := [s[0]] + ReplaceFirst(s[1..], c, d);
      assert c in s ==> s[..Text.IndexOf(s, c)] == [s[0]] + s[1..][..Text.IndexOf(s[1..], c)];
      r
  }

  /**
   * `.replace(/\s+/g, '-')`: every maximal run of white space becomes one `-`;
   * nothing is trimmed, so leading and trailing runs become dashes too.
   */
  function Slug(s: string): (r: string)
    ensures |r| <= |s| && (r == [] <==> s == [])
    ensures forall i :: 0 <= i < |r| ==> !Text.IsSpace(r[i])
    decreases |s|
  {
    if s == [] then []
    else if Text.IsSpace(s[0]) then
      Text.TrimStartOfSpace(s);
      var t := Slug(Text.TrimStart(s));
      NoSpaceCons('-', t);
      "-" + t
    else
      var t := Slug(s[1..]);
      NoSpaceCons(s[0], t);
      [s[0]] + t
  }

  lemma NoSpaceCons(c: char, t: string)
    requires !Text.IsSpace(c) && forall i :: 0 <= i < |t| ==> !Text.IsSpace(t[i])
    ensures forall i :: 0 <= i < |[c] + t| ==> !Text.IsSpace(([c] + t)[i])
  {
    forall i | 0 <= i < |[c] + t| ensures !Text.IsSpace(([c] + t)[i]) {
      if i > 0 { assert ([c] + t)[i] == t[i - 1]; }
    }
  }

  /** `p.id`, or else the slug of the lower-cased `nome`. */
  function IdOf(p: map<string, string>): (r: string)
    ensures r == "" <==> Get(p, "id") == "" && Get(p, "nome") == ""
  {
    Or(Get(p, "id"), Slug(Text.Lower(Get(p, "nome"))))
  }

  /**
   * The price (App.jsx:50): the first comma of the text becomes a point, the
   * text is read as a number, and a NaN or 0 result gives 0.
   */
  function PriceOf(p: map<string, string>): real
  {
    match Numeric.NumberOf(ReplaceFirst(Get(p, "preco"), ',', '.'))
    case None => 0.0
    case Some(v) => v
  }

  /**
   * The case size (App.jsx:52): the lower-case column wins over the camel-case
   * one, a missing or empty value gives 1, and so does a NaN or 0 reading.
   */
  function CaseSizeOf(p: map<string, string>): (r: real)
    ensures r != 0.0
  {
    var raw := Or(Get(p, "casesize"), Get(p, "caseSize"));
    if raw == "" then 1.0
    else
      match Numeric.NumberOf(raw)
      case None => 1.0
      case Some(v) => if v == 0.0 then 1.0 else v
  }

  /** The text the `caseOnly` flag is read from. */
  function CaseOnlyText(p: map<string, string>): string
  {
    Or(Get(p, "caseonly"), Get(p, "caseOnly"))
  }

  /** The case-only flag (App.jsx:53): the flag text, lower-cased, is exactly "true". */
  predicate CaseOnlyOf(p: map<string, string>)
  {
    Text.Lower(CaseOnlyText(p)) == "true"
  }

  /** The active flag (App.jsx:54): a missing or empty value counts as "true"; only "false" in any case is inactive. */
  predicate ActiveOf(p: map<string, string>)
  {
    Text.Lower(Or(Get(p, "ativo"), "true")) != "false"
  }

  /** `normalizeProduto`: total, with an id whenever the record has an id or a name. */
  function Normalize(p: map<string, string>): (r: Product)
    ensures r.caseSize != 0.0
    ensures r.id == "" <==> Get(p, "id") == "" && Get(p, "nome") == ""
  {
    Product(
      IdOf(p),
      Get(p, "nome"),
      Get(p, "marca"),
      PriceOf(p),
      Get(p, "unidade"),
      CaseSizeOf(p),
      CaseOnlyOf(p),
      ActiveOf(p))
  }

  // ---------------------------------------------------------------------------
  // The id rule

  /** A non-empty raw id is kept as it is. */
  lemma IdKept(p: map<string, string>)
    requires Get(p, "id") != ""
    ensures Normalize(p).id == p["id"]
  {
  }

  /** Without an id, the id is the slug of the lower-cased name. */
  lemma IdFromName(p: map<string, string>)
    requires Get(p, "id") == ""
    ensures Normalize(p).id == Slug(Text.Lower(Get(p, "nome")))
  {
  }

  /** Text without white space is its own slug. */
  lemma {:induction false} SlugOfSpaceFree(s: string)
    requires forall i :: 0 <= i < |s| ==> !Text.IsSpace(s[i])
    ensures Slug(s) == s
    decreases |s|
  {
    if s != [] {
      SlugOfSpaceFree(s[1..]);
      assert [s[0]] + s[1..] == s;
    }
  }

  /** Trimming the front of `a + b` stops inside `a` when `a` holds a non-space. */
  lemma {:induction false} TrimStartAppend(a: string, b: string)
    requires !Text.AllSpace(a)
    ensures Text.TrimStart(a + b) == Text.TrimStart(a) + b
    decreases |a|
  {
    if Text.IsSpace(a[0]) {
      assert !Text.AllSpace(a[1..]) by {
        var i :| 0 <= i < |a| && !Text.IsSpace(a[i]);
        assert a[1..][i - 1] == a[i];
      }
      assert (a + b)[1..] == a[1..] + b;
      TrimStartAppend(a[1..], b);
    } else {
      assert (a + b)[0] == a[0];
    }
  }

  /** A leading white-space run of `a` is one dash in the slugs of both `a` and `a + b`. */
  lemma LeadingRun(a: string, b: string)
    requires a != [] && Text.IsSpace(a[0]) && !Text.IsSpace(a[|a| - 1])
    ensures var t := Text.TrimStart(a);
      && t != [] && !Text.IsSpace(t[|t| - 1]) && |t| < |a|
      && Slug(a) == "-" + Slug(t) && Slug(a + b) == "-" + Slug(t + b)
  {
    var t := Text.TrimStart(a);
    assert !Text.AllSpace(a) by { assert !Text.IsSpace(a[|a| - 1]); }
    assert t == a[|a| - |t|..];
    TrimStartAppend(a, b);
    assert (a + b)[0] == a[0];
  }

  lemma AppendAssoc(x: string, y: string, z: string)
    ensures (x + y) + z == x + (y + z)
  {
  }

  /** A leading non-space character of `a` is copied into the slugs of both `a` and `a + b`. */
  lemma LeadingChar(a: string, b: string)
    requires a != [] && !Text.IsSpace(a[0])
    ensures Slug(a) == [a[0]] + Slug(a[1..]) && Slug(a + b) == [a[0]] + Slug(a[1..] + b)
  {
    assert (a + b)[0] == a[0] && (a + b)[1..] == a[1..] + b;
  }

  /** The slug of a concatenation splits at a point where no white-space run is cut. */
  lemma {:induction false} SlugAppend(a: string, b: string)
    requires a == [] || !Text.IsSpace(a[|a| - 1])
    ensures Slug(a + b) == Slug(a) + Slug(b)
    decreases |a|
  {
    if a == [] {
      assert a + b == b;
    } else if Text.IsSpace(a[0]) {
      var t := Text.TrimStart(a);
      LeadingRun(a, b);
      SlugAppend(t, b);
      AppendAssoc("-", Slug(t), Slug(b));
    } else {
      var u := a[1..];
      assert u == [] || !Text.IsSpace(u[|u| - 1]);
      LeadingChar(a, b);
      SlugAppend(u, b);
      AppendAssoc([a[0]], Slug(u), Slug(b));
    }
  }

  /** A whole run of white space becomes a single dash. */
  lemma SlugOfRun(w: string, b: string)
    requires w != [] && Text.AllSpace(w)
    requires b == [] || !Text.IsSpace(b[0])
    ensures Slug(w + b) == "-" + Slug(b)
  {
    Text.TrimStartPadded(w, b);
    assert (w + b)[0] == w[0];
  }

  /** Surrounding white space is not trimmed: each outer run becomes a dash of its own. */
  lemma SlugPadded(w1: string, m: string, w2: string)
    requires w1 != [] && Text.AllSpace(w1) && w2 != [] && Text.AllSpace(w2)
    requires m != [] && !Text.IsSpace(m[0]) && !Text.IsSpace(m[|m| - 1])
    ensures Slug(w1 + m + w2) == "-" + Slug(m) + "-"
  {
    SlugTrailing(m, w2);
    SlugOfRun(w1, m + w2);
    AppendAssoc(w1, m, w2);
    AppendAssoc("-", Slug(m), "-");
  }

  /** A trailing white-space run becomes one dash. */
  lemma SlugTrailing(m: string, w: string)
    requires w != [] && Text.AllSpace(w)
    requires m != [] && !Text.IsSpace(m[0]) && !Text.IsSpace(m[|m| - 1])
    ensures (m + w)[0] == m[0] && Slug(m + w) == Slug(m) + "-"
  {
    SlugAppend(m, w);
    SlugOfRun(w, []);
    assert w + [] == w;
  }

  // ---------------------------------------------------------------------------
  // Numeric coercion

  /** A decimal comma is read as a decimal point. */
  lemma {:induction false} PriceWithComma(p: map<string, string>, a: string, b: string)
    requires Numeric.AllDigits(a) && Numeric.AllDigits(b) && |a| + |b| > 0
    requires Get(p, "preco") == a + "," + b
    ensures PriceOf(p) == Numeric.DigitsValue(a) as real + Numeric.Fraction(b)
  {
    var s := a + "," + b;
    assert forall i :: 0 <= i < |a| ==> Numeric.IsDigit(a[i]);
    assert s[|a|] == ',' && s[..|a|] == a && s[|a| + 1..] == b;
    var k := Text.IndexOf(s, ',');
    assert k == |a| by {
      assert k <= |a| by { assert s[..k] == a[..k]; }
      assert ',' !in s[..k] && s[k] == ',';
    }
    assert ReplaceFirst(s, ',', '.') == a + "." + b;
    Numeric.NumberOfPointed(a, b);
  }

  /** Only the first comma is replaced, so a second one makes the price 0. */
  lemma PriceTwoCommas(p: map<string, string>)
    requires Get(p, "preco") == "1,2,3"
    ensures PriceOf(p) == 0.0
  {
    ReplaceFirstComma();
    SecondCommaNotNumber();
  }

  lemma ReplaceFirstComma()
    ensures ReplaceFirst("1,2,3", ',', '.') == "1.2,3"
  {
    var s := "1,2,3";
    assert Text.IndexOf(s, ',') == 1;
  }

  lemma SecondCommaNotNumber()
    ensures Numeric.NumberOf("1.2,3") == None
  {
    var u := "1.2,3";
    Numeric.NumberOfUnsigned(u);
    assert Numeric.DigitRun(u) == 1 by {
      Numeric.DigitRunOf("1", ".2,3");
      assert u == "1" + ".2,3";
    }
    assert !Numeric.AllDigits(u[2..]) by { assert u[2..][1] == ','; }
  }

  /** "12,50" is twelve and a half. */
  lemma PriceDecimalComma(p: map<string, string>)
    requires Get(p, "preco") == "12,50"
    ensures PriceOf(p) == 12.5
  {
    var a, b := "12", "50";
    assert Get(p, "preco") == a + "," + b;
    Numeric.TwoDigits('1', '2');
    Numeric.TwoDigits('5', '0');
    var whole, frac := Numeric.DigitsValue(a), Numeric.Fraction(b);
    assert whole == 12;
    assert frac == 0.5 by {
      assert Numeric.DigitsValue(b) == 50 && Numeric.Pow10(|b|) == 100;
    }
    PriceWithComma(p, a, b);
  }

  /** Text that is not a number gives price 0, and so does an empty or missing price. */
  lemma PriceFallbacks(q: map<string, string>, e: map<string, string>)
    requires Get(q, "preco") == "abc" && Get(e, "preco") == ""
    ensures PriceOf(q) == 0.0 && PriceOf(e) == 0.0
  {
    assert ReplaceFirst("abc", ',', '.') == "abc";
    Numeric.NumberOfNonNumeric("abc");
    assert ReplaceFirst("", ',', '.') == "";
    assert Text.Trim("") == "";
  }

  /** `casesize` wins over `caseSize` whenever it is non-empty. */
  lemma CaseSizeLowerKeyFirst(p: map<string, string>)
    requires Get(p, "casesize") != ""
    ensures CaseSizeOf(p) == CaseSizeOf(map["casesize" := p["casesize"]])
  {
  }

  /** A positive whole number of digits is taken as the case size. */
  lemma CaseSizeOfDigits(p: map<string, string>, d: string)
    requires Numeric.AllDigits(d) && Numeric.DigitsValue(d) > 0
    requires Or(Get(p, "casesize"), Get(p, "caseSize")) == d
    ensures CaseSizeOf(p) == Numeric.DigitsValue(d) as real
  {
    Numeric.NumberOfDigits(d);
  }

  /** An empty or missing case size reads as 1. */
  lemma CaseSizeEmpty(p: map<string, string>)
    requires Or(Get(p, "casesize"), Get(p, "caseSize")) == ""
    ensures CaseSizeOf(p) == 1.0
  {
  }

  /** A case size of zero, written with any number of digits, reads as 1. */
  lemma CaseSizeZero(p: map<string, string>, d: string)
    requires d != [] && Numeric.AllDigits(d) && Numeric.DigitsValue(d) == 0
    requires Or(Get(p, "casesize"), Get(p, "caseSize")) == d
    ensures CaseSizeOf(p) == 1.0
  {
    Numeric.NumberOfDigits(d);
  }

  /** A case size that is not a number ("x", say) reads as 1. */
  lemma CaseSizeNonNumeric(p: map<string, string>, s: string)
    requires s != [] && !Text.IsSpace(s[0]) && !Numeric.IsDigit(s[0])
    requires s[0] != '+' && s[0] != '-' && s[0] != '.'
    requires Or(Get(p, "casesize"), Get(p, "caseSize")) == s
    ensures CaseSizeOf(p) == 1.0
  {
    Numeric.NumberOfNonNumeric(s);
  }

  /** A negative case size ("-2", say) is kept: the normalizer only rules out 0. */
  lemma CaseSizeNegative(p: map<string, string>, d: string)
    requires d != [] && Numeric.AllDigits(d) && Numeric.DigitsValue(d) > 0
    requires Or(Get(p, "casesize"), Get(p, "caseSize")) == "-" + d
    ensures CaseSizeOf(p) == -(Numeric.DigitsValue(d) as real)
  {
    Numeric.NumberOfNegativeDigits(d);
  }

  /** A fractional case size ("2.5", say) is kept as well. */
  lemma CaseSizeFractional(p: map<string, string>, a: string, b: string)
    requires Numeric.AllDigits(a) && Numeric.AllDigits(b) && |a| + |b| > 0
    requires Numeric.DigitsValue(a) as real + Numeric.Fraction(b) != 0.0
    requires Or(Get(p, "casesize"), Get(p, "caseSize")) == a + "." + b
    ensures CaseSizeOf(p) == Numeric.DigitsValue(a) as real + Numeric.Fraction(b)
  {
    Numeric.NumberOfPointed(a, b);
  }

  // ---------------------------------------------------------------------------
  // The flags

  lemma LowerTrue()
    ensures Text.Lower("true") == "true"
  {
  }

  /** `caseOnly` holds exactly when the text is "true" in any letter case. */
  lemma CaseOnlyIff(p: map<string, string>)
    ensures Normalize(p).caseOnly <==> Text.CaseVariant(CaseOnlyText(p), "true")
  {
    Text.LowerCaseVariant(CaseOnlyText(p), "true");
  }

  /**
   * A product is inactive exactly when `ativo` is "false" in any letter case;
   * an absent or empty `ativo` means active.
   */
  lemma ActiveIff(p: map<string, string>)
    ensures !Normalize(p).active <==> Text.CaseVariant(Get(p, "ativo"), "false")
  {
    var raw := Or(Get(p, "ativo"), "true");
    Text.LowerCaseVariant(raw, "false");
    if Get(p, "ativo") == "" {
      assert !Text.CaseVariant(raw, "false") by { assert |raw| == 4; }
    }
  }

  /** "FALSE" and "False" switch a product off, and "TRUE" makes it case-only. */
  lemma FlagsInCapitals()
    ensures !Normalize(map["ativo" := "FALSE"]).active
    ensures !Normalize(map["ativo" := "False"]).active
    ensures Normalize(map["caseonly" := "TRUE"]).caseOnly
  {
    var off, off2, on := map["ativo" := "FALSE"], map["ativo" := "False"], map["caseonly" := "TRUE"];
    assert Text.CaseVariant("FALSE", "false");
    assert Text.CaseVariant("False", "false");
    assert Text.CaseVariant("TRUE", "true");
    ActiveIff(off);
    ActiveIff(off2);
    assert CaseOnlyText(on) == "TRUE";
    CaseOnlyIff(on);
  }

  /** An empty record still normalizes: no id, no name, price 0, case size 1, active. */
  lemma EmptyRecord()
    ensures Normalize(map[]) == Product("", "", "", 0.0, "", 1.0, false, true)
  {
    assert Text.Lower("") == "";
    assert Text.Trim("") == "";
    assert Text.Lower("true") != "false" by { LowerTrue(); }
  }
}
