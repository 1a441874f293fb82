/** The day1 Service: getAllProducts maps a region code to a canned response and keeps the
    last response in its `response` field. */
module Service {
  import opened Wrappers

  /** A day1 Product: a name and a price label. */
  datatype Product = Product(name: string, price: string)

  /** A Response: status code, message and the product list (None is Java's null). */
  datatype Response = Response(status: string, message: string, products: Option<seq<Product>>)

  /** The three products region "1" offers, in list order. */
  function Catalogue(): (c: seq<Product>)
    ensures |c| == 3
    ensures c[0] == Product("ipad", "1000$") && c[1] == Product("iphone", "700$")
    ensures c[2] == Product("mac book pro", "2000$")
  {
    [Product("ipad", "1000$"), Product("iphone", "700$"), Product("mac book pro", "2000$")]
  }

  class Service {
    /** The last response built; null until getAllProducts is first called. */
    var response: Option<Response>

    constructor ()
      ensures response == None
    {
      response := None;
    }

    /** getAllProducts(region): "1".equals(region) selects the catalogue, anything else
        (null included) the "region not supported" answer; the answer is stored in
        `response` and returned. */
    method GetAllProducts(region: Option<string>) returns (r: Response)
      modifies this
      ensures response == Some(r)
      ensures region == Some("1") ==> r == Response("200", "Products fetched", Some(Catalogue()))
      ensures region != Some("1") ==> r == Response("400", "Region not supported", None)
    {
      if region == Some("1") {
        var products := [Product("ipad", "1000$"), Product("iphone", "700$"), Product("mac book pro", "2000$")];
        response := Some(Response("200", "Products fetched", Some(products)));
      } else {
        response := Some(Response("400", "Region not supported", None));
      }
      r := response.value;
    }
  }

  /** What a caller sees: a status of "200" comes exactly with a product list, and that
      list holds three products named ipad, iphone and mac book pro; asking twice gives
      two answers with the same contents (Java builds a new Response each time), and the
      field keeps the latest one. */
  method AskTwice(region: Option<string>, other: Option<string>)
    returns (ok: bool, names: seq<string>, sameContents: bool, last: Option<Response>)
    ensures ok <==> region == Some("1")
    ensures ok ==> names == ["ipad", "iphone", "mac book pro"]
    ensures !ok ==> names == []
    ensures sameContents
    ensures last.Some? && (last.value.status == "200" <==> other == Some("1"))
  {
    var s := new Service();
    var r1 := s.GetAllProducts(region);
    var r2 := s.GetAllProducts(region);
    sameContents := r1 == r2;
    ok := r1.status == "200";
    assert ok <==> r1.products.Some?;
    if r1.products.Some? {
      var ps := r1.products.value;
      names := [ps[0].name, ps[1].name, ps[2].name];
    } else {
      names := [];
    }
    var r3 := s.GetAllProducts(other);
    last := s.response;
  }
}
