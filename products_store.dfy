/**
 * The client's products store module: its state (the product list, the
 * categories, a loading flag and an error message), the mutations that
 * update that state in place, and the actions that call the API and commit
 * mutations under a loading/error protocol. An API call is not made here:
 * each action receives its outcome (the response data, or the message of
 * the error it threw) as a parameter.
 */
module ProductsStore {
  import opened Wrappers
  import opened Js

  /** A product as the API returns it: its id and its other properties. */
  datatype Product = Product(id: int, fields: map<string, Value>)

  /** A category as the API returns it. */
  datatype Category = Category(fields: map<string, Value>)

  /**
   * The (name, value) pairs appended to a FormData, in order. These are the
   * `append` calls themselves: the string conversion FormData applies to
   * each non-file value is not part of the model.
   */
  type Form = seq<(string, Value)>

  const FetchFailed: string := "Failed to fetch products"
  const CreateFailed: string := "Failed to create product"
  const UpdateFailed: string := "Failed to update product"

  /**
   * `error.message || fallback`: the error's own message when it has one,
   * the fallback when it is empty, so the recorded error is never empty.
   */
  function ErrorText(message: string, fallback: string): (t: string)
    ensures t == message || t == fallback
    ensures fallback != "" ==> t != ""
    ensures message != "" ==> t == message
  {
    if message != "" then message else fallback
  }

  // ---------------------------------------------------------------------------
  // The list operations behind the mutations

  /** `products.findIndex(p => p.id === id)`: the first position with that id, or -1. */
  function FindIndex(s: seq<Product>, id: int): (i: int)
    ensures -1 <= i < |s|
    ensures i == -1 <==> forall k :: 0 <= k < |s| ==> s[k].id != id
    ensures 0 <= i ==> s[i].id == id && forall k :: 0 <= k < i ==> s[k].id != id
  {
    if s == [] then -1
    else if s[0].id == id then 0
    else
      var j := FindIndex(s[1..], id);
      if j == -1 then -1 else j + 1
  }

  /** The list after UPDATE_PRODUCT: the first product with p's id replaced by p, if there is one. */
  function Replaced(s: seq<Product>, p: Product): (r: seq<Product>)
    ensures |r| == |s|
    ensures FindIndex(s, p.id) == -1 ==> r == s
    ensures var i := FindIndex(s, p.id);
      i >= 0 ==> r[i] == p && forall k :: 0 <= k < |s| && k != i ==> r[k] == s[k]
  {
    var i := FindIndex(s, p.id);
    if i == -1 then s else s[..i] + [p] + s[i + 1..]
  }

  /** The list after DELETE_PRODUCT: `products.filter(p => p.id !== id)`. */
  function WithoutId(s: seq<Product>, id: int): (r: seq<Product>)
    ensures |r| <= |s|
    ensures forall k :: 0 <= k < |r| ==> r[k].id != id
    ensures forall x :: x in r <==> x in s && x.id != id
  {
    if s == [] then []
    else if s[0].id == id then WithoutId(s[1..], id)
    else [s[0]] + WithoutId(s[1..], id)
  }

  /** Filtering keeps relative order: it distributes over concatenation. */
  lemma {:induction false} WithoutIdAppend(a: seq<Product>, b: seq<Product>, id: int)
    ensures WithoutId(a + b, id) == WithoutId(a, id) + WithoutId(b, id)
  {
    if a == [] {
      assert a + b == b;
    } else {
      assert (a + b)[1..] == a[1..] + b;
      WithoutIdAppend(a[1..], b, id);
    }
  }

  /** Deleting an id that no product has leaves the list as it was. */
  lemma {:induction false} WithoutAbsentId(s: seq<Product>, id: int)
    requires forall k :: 0 <= k < |s| ==> s[k].id != id
    ensures WithoutId(s, id) == s
  {
    if s != [] {
      WithoutAbsentId(s[1..], id);
      assert s == [s[0]] + s[1..];
    }
  }

  /** DELETE_PRODUCT undoes ADD_PRODUCT of a product whose id was not in the list. */
  lemma DeleteUndoesAdd(s: seq<Product>, p: Product)
    requires forall k :: 0 <= k < |s| ==> s[k].id != p.id
    ensures WithoutId([p] + s, p.id) == s
  {
    assert ([p] + s)[1..] == s;
    WithoutAbsentId(s, p.id);
  }

  /** Repeating an update changes nothing more. */
  lemma UpdateIdempotent(s: seq<Product>, p: Product)
    ensures Replaced(Replaced(s, p), p) == Replaced(s, p)
  {
    var i := FindIndex(s, p.id);
    var r := Replaced(s, p);
    if i >= 0 {
      assert forall k :: 0 <= k < i ==> r[k].id != p.id;
      assert FindIndex(r, p.id) == i;
      assert Replaced(r, p) == r[..i] + [p] + r[i + 1..];
      assert Replaced(r, p) == r;
    }
  }

  // ---------------------------------------------------------------------------
  // The form bodies built by createProduct and updateProduct

  /** The fields whose value is neither null nor undefined, in order. */
  function NonNullFields(data: Form): (r: Form)
    ensures |r| <= |data|
    ensures forall e :: e in r <==> e in data && !Nullish(e.1)
  {
    if data == [] then []
    else if Nullish(data[0].1) then NonNullFields(data[1..])
    else [data[0]] + NonNullFields(data[1..])
  }

  lemma {:induction false} NonNullFieldsAppend(a: Form, b: Form)
    ensures NonNullFields(a + b) == NonNullFields(a) + NonNullFields(b)
  {
    if a == [] {
      assert a + b == b;
    } else {
      assert (a + b)[1..] == a[1..] + b;
      NonNullFieldsAppend(a[1..], b);
    }
  }

  /** Each key occurs at most once, as in the keys of a JavaScript object. */
  predicate DistinctKeys(data: Form)
  {
    forall i, j :: 0 <= i < j < |data| ==> data[i].0 != data[j].0
  }

  /** A key of the product data is appended at most once, so never twice. */
  lemma {:induction false} NonNullFieldsDistinct(data: Form)
    requires DistinctKeys(data)
    ensures DistinctKeys(NonNullFields(data))
  {
    if data != [] {
      NonNullFieldsDistinct(data[1..]);
      var rest := NonNullFields(data[1..]);
      forall e | e in rest ensures e.0 != data[0].0 {
        var j :| 0 <= j < |data[1..]| && data[1..][j] == e;
        assert data[j + 1] == e;
      }
    }
  }

  /** createProduct's loop: an image is appended when truthy, any other field when not null or undefined. */
  method BuildCreateForm(productData: Form) returns (form: Form)
    ensures form == NonNullFields(productData)
  {
    form := [];
    var i := 0;
    while i < |productData|
      invariant 0 <= i <= |productData|
      invariant form == NonNullFields(productData[..i])
    {
      var (key, value) := productData[i];
      if key == "image" && Truthy(value) {
        form := form + [("image", value)];
      } else if !Nullish(value) {
        form := form + [(key, value)];
      }
      assert productData[..i + 1] == productData[..i] + [productData[i]];
      NonNullFieldsAppend(productData[..i], [productData[i]]);
      i := i + 1;
    }
    assert productData[..i] == productData;
  }

  /** updateProduct's loop: as createProduct's, except that a string image is not sent as a file; then "_method" = "PUT". */
  method BuildUpdateForm(productData: Form) returns (form: Form)
    ensures form == NonNullFields(productData) + [("_method", Str("PUT"))]
  {
    form := [];
    var i := 0;
    while i < |productData|
      invariant 0 <= i <= |productData|
      invariant form == NonNullFields(productData[..i])
    {
      var (key, value) := productData[i];
      if key == "image" && Truthy(value) && !value.Str? {
        form := form + [("image", value)];
      } else if !Nullish(value) {
        form := form + [(key, value)];
      }
      assert productData[..i + 1] == productData[..i] + [productData[i]];
      NonNullFieldsAppend(productData[..i], [productData[i]]);
      i := i + 1;
    }
    assert productData[..i] == productData;
    form := form + [("_method", Str("PUT"))];
  }

  // ---------------------------------------------------------------------------
  // The store

  class ProductsState {
    var products: seq<Product>
    var categories: seq<Category>
    var loading: bool
    var error: Option<string>

    constructor ()
      ensures products == [] && categories == [] && !loading && error == None
    {
      products, categories, loading, error := [], [], false, None;
    }

    method SetProducts(ps: seq<Product>)
      modifies this
      ensures products == ps
      ensures categories == old(categories) && loading == old(loading) && error == old(error)
    {
      products := ps;
    }

    method SetCategories(cs: seq<Category>)
      modifies this
      ensures categories == cs
      ensures products == old(products) && loading == old(loading) && error == old(error)
    {
      categories := cs;
    }

    /** ADD_PRODUCT: `unshift`, the new product first and the old list after it. */
    method AddProduct(p: Product)
      modifies this
      ensures products == [p] + old(products)
      ensures categories == old(categories) && loading == old(loading) && error == old(error)
    {
      products := [p] + products;
    }

    /** UPDATE_PRODUCT: `splice(index, 1, p)` at the first matching index, if any. */
    method UpdateProduct(p: Product)
      modifies this
      ensures products == Replaced(old(products), p)
      ensures categories == old(categories) && loading == old(loading) && error == old(error)
    {
      var index := FindIndex(products, p.id);
      if index != -1 {
        products := products[..index] + [p] + products[index + 1..];
      }
    }

    /** DELETE_PRODUCT: the list reassigned to its filtered copy. */
    method DeleteProduct(id: int)
      modifies this
      ensures products == WithoutId(old(products), id)
      ensures categories == old(categories) && loading == old(loading) && error == old(error)
    {
      products := WithoutId(products, id);
    }

    method SetLoading(status: bool)
      modifies this
      ensures loading == status
      ensures products == old(products) && categories == old(categories) && error == old(error)
    {
      loading := status;
    }

    method SetError(e: Option<string>)
      modifies this
      ensures error == e
      ensures products == old(products) && categories == old(categories) && loading == old(loading)
    {
      error := e;
    }

    /**
     * fetchProducts: loading on and the error cleared, then the list
     * replaced by the response or the error recorded, and loading off
     * whatever happened. The outcome is returned or rethrown.
     */
    method FetchProducts(response: ApiResult<seq<Product>>) returns (r: ApiResult<seq<Product>>)
      modifies this
      ensures r == response && !loading && categories == old(categories)
      ensures response.Ok? ==> products == response.data && error == None
      ensures response.Err? ==>
        products == old(products) && error == Some(ErrorText(response.message, FetchFailed))
    {
      SetLoading(true);
      SetError(None);
      if response.Ok? {
        SetProducts(response.data);
      } else {
        SetError(Some(ErrorText(response.message, FetchFailed)));
      }
      SetLoading(false);
      r := response;
    }

    /** fetchCategories: no loading flag; the categories change only on success. */
    method FetchCategories(response: ApiResult<seq<Category>>) returns (r: ApiResult<seq<Category>>)
      modifies this
      ensures r == response
      ensures categories == if response.Ok? then response.data else old(categories)
      ensures products == old(products) && loading == old(loading) && error == old(error)
    {
      if response.Ok? {
        SetCategories(response.data);
      }
      r := response;
    }

    /**
     * createProduct: posts the non-null fields of the product data and
     * prepends the created product on success, under the same
     * loading/error protocol as fetchProducts. `api` is the endpoint's
     * answer to the posted body.
     */
    method CreateProduct(productData: Form, api: Form -> ApiResult<Product>)
      returns (posted: Form, r: ApiResult<Product>)
      modifies this
      ensures posted == NonNullFields(productData) && r == api(posted)
      ensures !loading && categories == old(categories)
      ensures r.Ok? ==> products == [r.data] + old(products) && error == None
      ensures r.Err? ==> products == old(products) && error == Some(ErrorText(r.message, CreateFailed))
    {
      SetLoading(true);
      SetError(None);
      posted := BuildCreateForm(productData);
      r := api(posted);
      if r.Ok? {
        AddProduct(r.data);
      } else {
        SetError(Some(ErrorText(r.message, CreateFailed)));
      }
      SetLoading(false);
    }

    /** updateProduct: posts the non-null fields plus "_method" = "PUT", and replaces the product on success. */
    method UpdateProductAction(productData: Form, api: Form -> ApiResult<Product>)
      returns (posted: Form, r: ApiResult<Product>)
      modifies this
      ensures posted == NonNullFields(productData) + [("_method", Str("PUT"))] && r == api(posted)
      ensures !loading && categories == old(categories)
      ensures r.Ok? ==> products == Replaced(old(products), r.data) && error == None
      ensures r.Err? ==> products == old(products) && error == Some(ErrorText(r.message, UpdateFailed))
    {
      SetLoading(true);
      SetError(None);
      posted := BuildUpdateForm(productData);
      r := api(posted);
      if r.Ok? {
        UpdateProduct(r.data);
      } else {
        SetError(Some(ErrorText(r.message, UpdateFailed)));
      }
      SetLoading(false);
    }

    /** deleteProduct: the product leaves the list only once the API call succeeded. */
    method DeleteProductAction(id: int, response: ApiResult<()>) returns (r: ApiResult<()>)
      modifies this
      ensures r == response
      ensures products == if response.Ok? then WithoutId(old(products), id) else old(products)
      ensures categories == old(categories) && loading == old(loading) && error == old(error)
    {
      if response.Ok? {
        DeleteProduct(id);
      }
      r := response;
    }

    /** searchProductByGtin: loading on for the call and off afterwards; nothing else changes. */
    method SearchProductByGtin(response: ApiResult<Value>) returns (r: ApiResult<Value>)
      modifies this
      ensures r == response && !loading
      ensures products == old(products) && categories == old(categories) && error == old(error)
    {
      SetLoading(true);
      r := response;
      SetLoading(false);
    }
  }
}
