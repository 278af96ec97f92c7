/**
 * The `ProductList` component's state and its event handlers. Each handler
 * is one atomic state update; rendering sorts the list in place (as
 * `Array.prototype.sort` does) and derives the filtered view from it.
 */
module Component {
  import opened Text
  import opened Catalog
  import opened Sorting
  import opened Filtering

  /** The property names of the add-form's draft record. */
  const CodeKey: string := "maSanPham"
  const NameKey: string := "tenSanPham"
  const CategoryKey: string := "theLoai"
  const QuantityKey: string := "soLuong"
  const PriceKey: string := "gia"
  const DateKey: string := "ngayNhap"

  /** The draft has (at least) the six fields of the form. */
  predicate HasDraftFields(d: map<string, string>) {
    CodeKey in d && NameKey in d && CategoryKey in d
    && QuantityKey in d && PriceKey in d && DateKey in d
  }

  /** The draft of an empty form: the six fields, each the empty string. */
  function EmptyDraft(): (d: map<string, string>)
    ensures HasDraftFields(d)
    ensures d.Keys == {CodeKey, NameKey, CategoryKey, QuantityKey, PriceKey, DateKey}
    ensures forall k :: k in d ==> d[k] == ""
  {
    map[CodeKey := "", NameKey := "", CategoryKey := "",
        QuantityKey := "", PriceKey := "", DateKey := ""]
  }

  class ProductList {
    /** `products`: the list, seeded from the data file, grown by the form. */
    var products: seq<Product>
    /** `showModal`: whether the add-form is open. */
    var showModal: bool
    /** `newProduct`: the add-form's draft, property name to typed text. */
    var newProduct: map<string, string>
    var searchTerm: string
    var selectedCategory: string

    ghost predicate Valid()
      reads this
    {
      HasDraftFields(newProduct)
    }

    /** The initial state: the seed list, form closed and empty, no filter. */
    constructor (seed: seq<Product>)
      ensures Valid()
      ensures products == seed && !showModal && newProduct == EmptyDraft()
      ensures searchTerm == "" && selectedCategory == ""
    {
      products := seed;
      showModal := false;
      newProduct := EmptyDraft();
      searchTerm := "";
      selectedCategory := "";
    }

    method HandleShow()
      modifies this`showModal
      ensures showModal
    {
      showModal := true;
    }

    method HandleClose()
      modifies this`showModal
      ensures !showModal
    {
      showModal := false;
    }

    /** Merges one typed value into the draft; every other field keeps its
        value. */
    method HandleChange(name: string, value: string)
      requires Valid()
      modifies this`newProduct
      ensures Valid()
      ensures name in newProduct && newProduct[name] == value
      ensures newProduct.Keys == old(newProduct).Keys + {name}
      ensures forall k :: k in old(newProduct) && k != name ==> newProduct[k] == old(newProduct)[k]
    {
      newProduct := newProduct[name := value];
    }

    method HandleSearchChange(value: string)
      modifies this`searchTerm
      ensures searchTerm == value
    {
      searchTerm := value;
    }

    method HandleCategoryChange(value: string)
      modifies this`selectedCategory
      ensures selectedCategory == value
    {
      selectedCategory := value;
    }

    /** Appends the draft as a new record numbered length + 1, with its price
        parsed, then closes the form and empties the draft. */
    method HandleSubmit()
      requires Valid()
      modifies this`products, this`showModal, this`newProduct
      ensures Valid()
      ensures |products| == |old(products)| + 1
      ensures products[..|old(products)|] == old(products)
      ensures products[|old(products)|] == Product(
                |old(products)| + 1,
                old(newProduct)[CodeKey],
                old(newProduct)[NameKey],
                old(newProduct)[CategoryKey],
                old(newProduct)[QuantityKey],
                ParseFloat(old(newProduct)[PriceKey]),
                old(newProduct)[DateKey])
      ensures !showModal && newProduct == EmptyDraft()
      ensures Numbered(old(products)) ==> Numbered(products)
    {
      var record := Product(
        |products| + 1,
        newProduct[CodeKey],
        newProduct[NameKey],
        newProduct[CategoryKey],
        newProduct[QuantityKey],
        ParseFloat(newProduct[PriceKey]),
        newProduct[DateKey]);
      ghost var before := products;
      products := products + [record];
      HandleClose();
      newProduct := EmptyDraft();
      assert products[..|before|] == before;
      if Numbered(before) {
        NumberedAppend(before, record);
      }
    }

    /** `products.sort(...)` by code: an insertion sort on the list itself,
        moving each record left past the records that sort after it. */
    method SortProducts()
      modifies this`products
      ensures products == SortByCode(old(products))
      ensures SortedByCode(products) && multiset(products) == multiset(old(products))
      ensures Numbered(old(products)) ==> Numbered(products)
    {
      ghost var original := products;
      var i := 0;
      while i < |products|
        invariant |products| == |original| && 0 <= i <= |products|
        invariant products[..i] == SortByCode(original[..i])
        invariant products[i..] == original[i..]
      {
        assert products[i] == original[i] && products[i + 1..] == original[i + 1..] by {
          assert products[i..][0] == products[i] && products[i..][1..] == products[i + 1..];
        }
        MoveLeft(i);
        SortByCodeSnoc(original, i);
        i := i + 1;
      }
      assert original[..|original|] == original;
      assert products[..|products|] == products;
      SortByCodeSorted(original);
      if Numbered(original) {
        SortKeepsNumbered(original);
      }
    }

    /** One pass of the insertion sort: record `i` moves left, one swap at a
        time, past the records before it whose code sorts after its own. */
    method MoveLeft(i: nat)
      requires i < |products|
      modifies this`products
      ensures |products| == |old(products)|
      ensures products[..i + 1] == Insert(old(products)[..i], old(products)[i])
      ensures products[i + 1..] == old(products)[i + 1..]
    {
      ghost var prefix := products[..i];
      ghost var rest := products[i + 1..];
      var x := products[i];
      var j := i;
      assert products == prefix[..j] + [x] + prefix[j..] + rest by {
        assert products == products[..i] + [products[i]] + products[i + 1..];
        assert prefix[..j] == prefix && prefix[j..] == [];
      }
      assert prefix[..j] == prefix;
      while j > 0 && !LexLeq(products[j - 1].code, x.code)
        invariant 0 <= j <= i
        invariant products == prefix[..j] + [x] + prefix[j..] + rest
        invariant Insert(prefix, x) == Insert(prefix[..j], x) + prefix[j..]
      {
        SwapShape(prefix, j, x, rest);
        SwapStep(prefix, j, x);
        products := products[j - 1 := x][j := products[j - 1]];
        j := j - 1;
      }
      assert j > 0 ==> products[j - 1] == prefix[j - 1];
      InsertAtEnd(prefix, j, x);
      assert products[..i + 1] == prefix[..j] + [x] + prefix[j..];
      assert products[i + 1..] == rest;
    }

    /** One render: sorts the list in place, filters it by the search term
        and category, and shows a table of the matches or the notice. */
    method Render() returns (v: View)
      modifies this`products
      ensures products == SortByCode(old(products))
      ensures v == RenderList(FilterProducts(products, searchTerm, selectedCategory))
      ensures v.NoResults? <==> forall p :: p in old(products) ==> !Matches(p, searchTerm, selectedCategory)
      ensures v.Table? ==> forall i, j :: 0 <= i < j < |v.rows| ==> LexLeq(v.rows[i].code, v.rows[j].code)
    {
      SortProducts();
      var filteredProducts := FilterProducts(products, searchTerm, selectedCategory);
      v := RenderList(filteredProducts);
      FilterSorted(products, searchTerm, selectedCategory);
      NoResultsIffNoMatch(products, searchTerm, selectedCategory);
      assert forall p :: p in products <==> p in old(products) by {
        forall p
          ensures p in products <==> p in old(products)
        {
          assert p in products <==> p in multiset(products);
          assert p in old(products) <==> p in multiset(old(products));
        }
      }
    }
  }
}
