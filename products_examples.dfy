/** Worked examples of name picking and of one whole product record. */
module ProductsExamples {
  import opened Wrappers
  import opened JsValue
  import opened Clean
  import opened Stock
  import opened Products

  /** A name that is plain text without whitespace is its own cleaned form. */
  lemma PlainWordIsClean(w: string)
    requires NoWs(w)
    ensures CleanString(Str(w)) == w
  {
    NoWsIsClean(w);
    CleanStringFixedPoints(w);
  }

  /** `{pt: "Vestido", en: "Dress"}` gives "Vestido". */
  lemma PickNamePrefersPortuguese()
    ensures PickName(Obj(map["name" := Obj(map["pt" := Str("Vestido"), "en" := Str("Dress")])])) == "Vestido"
  {
    SampleName(Obj(map["name" := Obj(map["pt" := Str("Vestido"), "en" := Str("Dress")])]), "Vestido");
  }

  lemma PicksEnglishAfterEmptyPortuguese(p: Value, en: string)
    requires en == "Dress"
    requires p == Obj(map["name" := Obj(map["pt" := Str(""), "en" := Str(en)])])
    ensures PickName(p) == en
  {
    var n := Get(p, "name");
    assert Get(n, Locales[0]) == Str("");
    assert Get(n, Locales[1]) == Undefined;
    assert Get(n, Locales[2]) == Undefined;
    assert Get(n, Locales[3]) == Str(en);
    PickNameOfLocale(p, 3);
    assert NoWs(en);
    PlainWordIsClean(en);
  }

  /** An empty `pt` is falsy, so `{pt: "", en: "Dress"}` falls through to "Dress". */
  lemma PickNameSkipsEmptyLocale()
    ensures PickName(Obj(map["name" := Obj(map["pt" := Str(""), "en" := Str("Dress")])])) == "Dress"
  {
    PicksEnglishAfterEmptyPortuguese(Obj(map["name" := Obj(map["pt" := Str(""), "en" := Str("Dress")])]), "Dress");
  }

  /** A product with no name, or with an empty one, gets "". */
  lemma PickNameOfMissing()
    ensures PickName(Obj(map[])) == ""
    ensures PickName(Obj(map["name" := Str("")])) == ""
    ensures PickName(Null) == ""
  {
    assert Get(Obj(map["name" := Str("")]), "name") == Str("");
  }

  // ---------------------------------------------------------------------
  // one whole record

  /** The name step of the sample: the Portuguese translation wins. */
  lemma SampleName(p: Value, name: string)
    requires name == "Vestido"
    requires Get(p, "name") == Obj(map["pt" := Str(name), "en" := Str("Dress")])
    ensures PickName(p) == name
  {
    assert Get(Get(p, "name"), Locales[0]) == Str(name);
    PickNameOfLocale(p, 0);
    assert NoWs(name);
    PlainWordIsClean(name);
  }

  /** The price step: "19.90" stays text and a null promotional price gives "". */
  lemma SamplePrices(variant: Value, price: string, level: Value)
    requires price == "19.90"
    requires variant == Obj(map["price" := Str(price), "promotional_price" := Null, "inventory_levels" := Arr([level])])
    ensures PriceText(variant, "price") == price
    ensures PriceText(variant, "promotional_price") == ""
  {
    assert NoWs(price);
    NoWsIsClean(price);
    PriceKeepsText(variant, "price", price);
    assert Get(variant, "promotional_price") == Null;
  }

  /** The stock step: one level holding 2 sums to 2. */
  lemma SampleStock(variant: Value, price: string, level: Value)
    requires level == Obj(map["stock" := Num("2")])
    requires variant == Obj(map["price" := Str(price), "promotional_price" := Null, "inventory_levels" := Arr([level])])
    ensures SumStock(variant) == Some(2.0)
  {
    assert DecimalText(2) == "2";
    IntegerStockContributes(2, level);
    SumStockSpec(variant);
    assert Get(variant, "inventory_levels") == Arr([level]);
    assert [level][..0] == [];
    assert Total([level]) == SumOf(Contribution, []) + Contribution(level);
  }

  /**
   * One whole record: any product with id 7, a Portuguese name, one variant
   * priced "19.90" with a null promotional price and one inventory level of 2,
   * a bracketed image link and an upper-case canonical link, whatever other
   * keys it has.
   */
  lemma NormalizeSample(p: Value, name: string, price: string, src: string, canon: string, variant: Value, level: Value)
    requires name == "Vestido" && price == "19.90"
    requires src == "[https://x.com/a.png]" && canon == "HTTPS://Example.com"
    requires level == Obj(map["stock" := Num("2")])
    requires variant == Obj(map["price" := Str(price), "promotional_price" := Null, "inventory_levels" := Arr([level])])
    requires Get(p, "id") == Num("7")
    requires Get(p, "name") == Obj(map["pt" := Str(name), "en" := Str("Dress")])
    requires Get(p, "variants") == Arr([variant])
    requires Get(p, "images") == Arr([Obj(map["src" := Str(src)])])
    requires Get(p, "canonical_url") == Str(canon)
    ensures Normalize(p) == Product(Num("7"), name, price, "", "https://x.com/a.png", canon, Some(2.0))
  {
    SampleName(p, name);
    assert FirstVariant(p) == variant;
    SamplePrices(variant, price, level);
    SampleStock(variant, price, level);
    SampleLinks(p, src, canon);
    NormalizeFromFields(p, variant, name, price, "", "https://x.com/a.png", canon, Some(2.0));
  }

  /** The link steps: the bracketed image link is unwrapped and the canonical link kept as it is. */
  lemma SampleLinks(p: Value, src: string, canon: string)
    requires src == "[https://x.com/a.png]" && canon == "HTTPS://Example.com"
    requires Get(p, "images") == Arr([Obj(map["src" := Str(src)])])
    requires Get(p, "canonical_url") == Str(canon)
    ensures CleanUrl(Get(First(Get(p, "images")), "src")) == "https://x.com/a.png"
    ensures CleanUrl(Get(p, "canonical_url")) == canon
  {
    assert Get(First(Get(p, "images")), "src") == Str(src);
    CleanUrlUnwrapsBrackets();
    KeepsSchemeCase(canon);
  }

  /** A record is determined by its fields, each computed from the product and its first variant. */
  lemma NormalizeFromFields(p: Value, variant: Value, name: string, price: string, promo: string,
                            image: string, url: string, stock: Option<real>)
    requires FirstVariant(p) == variant && PickName(p) == name
    requires PriceText(variant, "price") == price && PriceText(variant, "promotional_price") == promo
    requires CleanUrl(Get(First(Get(p, "images")), "src")) == image
    requires CleanUrl(Get(p, "canonical_url")) == url
    requires SumStock(variant) == stock
    ensures Normalize(p) == Product(Coalesce(Get(p, "id"), Null), name, price, promo, image, url, stock)
  {
  }

  /** A payload that is an object rather than an array maps to no products. */
  lemma MapProductsOfObject()
    ensures MapProducts(Obj(map["products" := Arr([])])) == []
  {
  }
}
