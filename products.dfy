/**
 * The per-product normalisation of the products handler: `pickName`, the
 * record built for each upstream product, and the `Array.isArray` guard
 * that turns any other payload into an empty list.
 */
module Products {
  import opened Wrappers
  import opened JsValue
  import opened Clean
  import opened Stock

  /**
   * The record emitted for one product. Its seven fields are the keys
   * `id`, `name`, `price`, `promotional_price`, `image_url`, `url` and
   * `stock`; `stock` is None where the handler emits null.
   */
  datatype Product = Product(
    id: Value,
    name: string,
    price: string,
    promotionalPrice: string,
    imageUrl: string,
    url: string,
    stock: Option<real>)

  /** The locales a translated name is looked up in, most preferred first. */
  const Locales: seq<string> := ["pt", "pt-BR", "es", "en"]

  /** `n.pt || n["pt-BR"] || n.es || n.en || ""`. */
  function LocaleChoice(n: Value): Value {
    Or(Get(n, "pt"), Or(Get(n, "pt-BR"), Or(Get(n, "es"), Or(Get(n, "en"), Str("")))))
  }

  /** Reference definition: the value of the first locale in `ks` that is truthy in `n`, or "". */
  function FirstTruthy(n: Value, ks: seq<string>): Value {
    if ks == [] then Str("")
    else if Truthy(Get(n, ks[0])) then Get(n, ks[0])
    else FirstTruthy(n, ks[1..])
  }

  /** `pickName(p)`: no name for a falsy name, the cleaned string, or the cleaned preferred translation. */
  function PickName(p: Value): string {
    var n := Get(p, "name");
    if !Truthy(n) then ""
    else if n.Str? then CleanString(n)
    else CleanString(LocaleChoice(n))
  }

  /** `p?.variants?.[0] ?? null`. */
  function FirstVariant(p: Value): Value {
    Coalesce(First(Get(p, "variants")), Null)
  }

  /** `variant?.[key] != null ? cleanString(variant[key]) : ""`, used for both prices. */
  function PriceText(variant: Value, key: string): string {
    if !IsNullish(Get(variant, key)) then CleanString(Get(variant, key)) else ""
  }

  /** The record the handler's `map` callback builds for the product `p`. */
  function Normalize(p: Value): Product {
    var variant := FirstVariant(p);
    Product(
      Coalesce(Get(p, "id"), Null),
      PickName(p),
      PriceText(variant, "price"),
      PriceText(variant, "promotional_price"),
      CleanUrl(Get(First(Get(p, "images")), "src")),
      CleanUrl(Get(p, "canonical_url")),
      SumStock(variant))
  }

  /** `xs.map(f)`: one result per element, in the same order. */
  function MapSeq<A, B>(f: A -> B, xs: seq<A>): (r: seq<B>)
    ensures |r| == |xs|
    ensures forall i | 0 <= i < |xs| :: r[i] == f(xs[i])
  {
    if xs == [] then []
    else
      var rest := MapSeq(f, xs[1..]);
      assert forall i | 1 <= i < |xs| :: xs[i] == xs[1..][i - 1];
      [f(xs[0])] + rest
  }

  /** The handler's output list: the normalised products when the payload is an array, none otherwise. */
  function MapProducts(data: Value): (r: seq<Product>)
    ensures !data.Arr? ==> r == []
    ensures data.Arr? ==> |r| == |data.items|
    ensures data.Arr? ==> forall i | 0 <= i < |r| :: r[i] == Normalize(data.items[i])
  {
    if data.Arr? then MapSeq(Normalize, data.items) else []
  }

  // ---------------------------------------------------------------------
  // pickName

  /** The `||` chain picks exactly the first truthy translation, in locale order. */
  lemma LocaleChoiceIsFirstTruthy(n: Value)
    ensures LocaleChoice(n) == FirstTruthy(n, Locales)
  {
    FirstTruthyCons(n, "en", []);
    FirstTruthyCons(n, "es", ["en"]);
    FirstTruthyCons(n, "pt-BR", ["es", "en"]);
    FirstTruthyCons(n, "pt", ["pt-BR", "es", "en"]);
  }

  lemma FirstTruthyCons(n: Value, k: string, ks: seq<string>)
    ensures FirstTruthy(n, [k] + ks) == Or(Get(n, k), FirstTruthy(n, ks))
  {
    assert ([k] + ks)[1..] == ks;
  }

  /** The first truthy locale decides, whatever the later locales hold. */
  lemma {:induction false} FirstTruthyAt(n: Value, ks: seq<string>, i: int)
    requires 0 <= i < |ks| && Truthy(Get(n, ks[i]))
    requires forall j | 0 <= j < i :: !Truthy(Get(n, ks[j]))
    ensures FirstTruthy(n, ks) == Get(n, ks[i])
    decreases i
  {
    if i > 0 {
      assert !Truthy(Get(n, ks[0]));
      FirstTruthyAt(n, ks[1..], i - 1);
    }
  }

  /** When no locale is truthy the chain ends in "". */
  lemma {:induction false} FirstTruthyNone(n: Value, ks: seq<string>)
    requires forall j | 0 <= j < |ks| :: !Truthy(Get(n, ks[j]))
    ensures FirstTruthy(n, ks) == Str("")
    decreases |ks|
  {
    if ks != [] {
      assert !Truthy(Get(n, ks[0]));
      FirstTruthyNone(n, ks[1..]);
    }
  }

  /** An absent, null, empty or otherwise falsy name gives "". */
  lemma PickNameOfFalsy(p: Value)
    requires !Truthy(Get(p, "name"))
    ensures PickName(p) == ""
  {
  }

  /** A string name, empty or not, gives that string cleaned. */
  lemma PickNameOfString(p: Value)
    requires Get(p, "name").Str?
    ensures PickName(p) == CleanString(Get(p, "name"))
  {
    if Get(p, "name") == Str("") {
      CleanStringFixedPoints("");
    }
  }

  /** A translated name gives the first truthy translation among pt, pt-BR, es, en, cleaned. */
  lemma PickNameOfLocale(p: Value, i: int)
    requires Truthy(Get(p, "name")) && !Get(p, "name").Str?
    requires 0 <= i < |Locales| && Truthy(Get(Get(p, "name"), Locales[i]))
    requires forall j | 0 <= j < i :: !Truthy(Get(Get(p, "name"), Locales[j]))
    ensures PickName(p) == CleanString(Get(Get(p, "name"), Locales[i]))
  {
    LocaleChoiceIsFirstTruthy(Get(p, "name"));
    FirstTruthyAt(Get(p, "name"), Locales, i);
  }

  /** A translated name with no truthy translation gives "". */
  lemma PickNameOfNoLocale(p: Value)
    requires Truthy(Get(p, "name")) && !Get(p, "name").Str?
    requires forall j | 0 <= j < |Locales| :: !Truthy(Get(Get(p, "name"), Locales[j]))
    ensures PickName(p) == ""
  {
    LocaleChoiceIsFirstTruthy(Get(p, "name"));
    FirstTruthyNone(Get(p, "name"), Locales);
    CleanStringFixedPoints("");
  }

  /** A picked name is always clean: trimmed, with single spaces. */
  lemma PickNameIsClean(p: Value)
    ensures IsClean(PickName(p))
  {
    var n := Get(p, "name");
    if !Truthy(n) {
      CleanStringFixedPoints("");
    } else if n.Str? {
      CleanStringIsClean(n);
    } else {
      CleanStringIsClean(LocaleChoice(n));
    }
  }

  // ---------------------------------------------------------------------
  // prices, first variant, stock

  /** The `!= null` guard agrees with cleanString's own null case: a price is its field, cleaned. */
  lemma PriceTextIsCleanString(variant: Value, key: string)
    ensures PriceText(variant, key) == CleanString(Get(variant, key))
  {
  }

  /** A price is kept as text: a clean numeric or string field comes out as the same characters. */
  lemma PriceKeepsText(variant: Value, key: string, t: string)
    requires Get(variant, key) == Num(t) || Get(variant, key) == Str(t)
    requires IsClean(t)
    ensures PriceText(variant, key) == t
  {
    CleanStringFixedPoints(t);
  }

  /** Both prices and the stock come from the first variant; later variants are never read. */
  lemma NormalizeReadsFirstVariant(p: Value, v: Value, rest: seq<Value>)
    requires Get(p, "variants") == Arr([v] + rest)
    ensures Normalize(p).price == CleanString(Get(v, "price"))
    ensures Normalize(p).promotionalPrice == CleanString(Get(v, "promotional_price"))
    ensures Normalize(p).stock == SumStock(v)
  {
    assert First(Get(p, "variants")) == v;
    PriceTextIsCleanString(FirstVariant(p), "price");
    PriceTextIsCleanString(FirstVariant(p), "promotional_price");
  }

  /** A product without a first variant has no prices and a null stock. */
  lemma NormalizeWithoutVariant(p: Value)
    requires IsNullish(First(Get(p, "variants")))
    ensures Normalize(p).price == ""
    ensures Normalize(p).promotionalPrice == ""
    ensures Normalize(p).stock == None
  {
  }

  /** The stock is null exactly when the first variant has no inventory array, and its total otherwise. */
  lemma NormalizeStock(p: Value)
    ensures Normalize(p).stock.None? <==> !Get(FirstVariant(p), "inventory_levels").Arr?
    ensures Get(FirstVariant(p), "inventory_levels").Arr? ==>
      Normalize(p).stock == Some(Total(Get(FirstVariant(p), "inventory_levels").items))
  {
    SumStockSpec(FirstVariant(p));
  }

  // ---------------------------------------------------------------------
  // the output record

  /** The id is copied unless it is null or absent, and is then null; it is never undefined. */
  lemma NormalizeId(p: Value)
    ensures !Normalize(p).id.Undefined?
    ensures Normalize(p).id.Null? <==> IsNullish(Get(p, "id"))
    ensures !IsNullish(Get(p, "id")) ==> Normalize(p).id == Get(p, "id")
  {
  }

  /** Name and prices are clean text. */
  lemma NormalizeTextIsClean(p: Value)
    ensures IsClean(Normalize(p).name)
    ensures IsClean(Normalize(p).price)
    ensures IsClean(Normalize(p).promotionalPrice)
  {
    PickNameIsClean(p);
    PriceTextIsCleanString(FirstVariant(p), "price");
    CleanStringIsClean(Get(FirstVariant(p), "price"));
    PriceTextIsCleanString(FirstVariant(p), "promotional_price");
    CleanStringIsClean(Get(FirstVariant(p), "promotional_price"));
  }

  /** The image and product links are either empty or start with http:// or https://. */
  lemma NormalizeUrls(p: Value)
    ensures Normalize(p).imageUrl == "" || HasHttpScheme(Normalize(p).imageUrl)
    ensures Normalize(p).url == "" || HasHttpScheme(Normalize(p).url)
  {
    CleanUrlShape(Get(First(Get(p, "images")), "src"));
    CleanUrlShape(Get(p, "canonical_url"));
  }

  /** The image link is taken from the first image only. */
  lemma NormalizeReadsFirstImage(p: Value, img: Value, rest: seq<Value>)
    requires Get(p, "images") == Arr([img] + rest)
    ensures Normalize(p).imageUrl == CleanUrl(Get(img, "src"))
  {
    var first := First(Get(p, "images"));
    assert first == img;
    ImageField(p, first);
  }

  lemma ImageField(p: Value, first: Value)
    requires first == First(Get(p, "images"))
    ensures Normalize(p).imageUrl == CleanUrl(Get(first, "src"))
  {
  }

  // ---------------------------------------------------------------------
  // the list

  /** Mapping distributes over concatenation: order is kept and each result depends on its own element only. */
  lemma MapSeqAppend<A, B>(f: A -> B, a: seq<A>, b: seq<A>)
    ensures MapSeq(f, a + b) == MapSeq(f, a) + MapSeq(f, b)
  {
    var r := MapSeq(f, a + b);
    var s := MapSeq(f, a) + MapSeq(f, b);
    forall i | 0 <= i < |r|
      ensures r[i] == s[i]
    {
      if i < |a| {
        assert (a + b)[i] == a[i];
      } else {
        assert (a + b)[i] == b[i - |a|];
      }
    }
  }

  /** Products are normalised independently and in order: a longer payload extends the output. */
  lemma MapProductsAppend(a: seq<Value>, b: seq<Value>)
    ensures MapProducts(Arr(a + b)) == MapProducts(Arr(a)) + MapProducts(Arr(b))
  {
    MapSeqAppend(Normalize, a, b);
  }
}
