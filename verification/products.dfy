/** The product record exchanged with the backing store, the panel modes, and
    the replace-by-id merge both components use to fold a product into the
    list. */
module Products {

  import opened Sequences

  /** The nested `rating` object of a product. */
  datatype Rating = Rating(rate: real, count: int)

  /** One catalog entry. `price` and `rate` are JavaScript numbers, modelled
      as exact reals. */
  datatype Product = Product(
    id: int,
    title: string,
    price: real,
    description: string,
    category: string,
    image: string,
    rating: Rating
  )

  /** The side panel's mode; the absent mode (`null`) is `None` of an Option. */
  datatype Mode = View | Edit | Add

  /** The ids of `ps`, position by position (`products.map(p => p.id)`). */
  function Ids(ps: seq<Product>): seq<int>
  {
    seq(|ps|, i requires 0 <= i < |ps| => ps[i].id)
  }

  /** No two rows carry the same id. */
  predicate UniqueIds(ps: seq<Product>)
  {
    NoDup(Ids(ps))
  }

  /** `r` is `ps` with every row whose id is `p.id` replaced by `p`: same length,
      same order, every other row untouched. */
  ghost predicate ReplacedById(ps: seq<Product>, r: seq<Product>, p: Product)
  {
    && |r| == |ps|
    && forall i :: 0 <= i < |ps| ==> r[i] == if ps[i].id == p.id then p else ps[i]
  }

  /** `prev.map(q => q.id === p.id ? p : q)`: the rows keep their count,
      order and ids; a row with `p`'s id becomes `p`, every other row stays,
      and `p` ends up in the list only if some row already carried its id. */
  function ReplaceById(ps: seq<Product>, p: Product): (r: seq<Product>)
    ensures |r| == |ps|
    ensures Ids(r) == Ids(ps)
    ensures forall i :: 0 <= i < |ps| && ps[i].id != p.id ==> r[i] == ps[i]
    ensures forall i :: 0 <= i < |ps| && ps[i].id == p.id ==> r[i] == p
    ensures p in r <==> p.id in Ids(ps)
    ensures ReplacedById(ps, r, p)
  {
    var r := seq(|ps|, i requires 0 <= i < |ps| => if ps[i].id == p.id then p else ps[i]);
    assert p in r <==> p.id in Ids(ps) by {
      if p.id in Ids(ps) {
        var i :| 0 <= i < |ps| && Ids(ps)[i] == p.id;
        assert r[i] == p;
      }
      if p in r {
        var i :| 0 <= i < |r| && r[i] == p;
        assert Ids(ps)[i] == p.id;
      }
    }
    r
  }

  /** Replacing never changes the id column, so the selection and the row keys
      stay meaningful. */
  lemma ReplaceKeepsIds(ps: seq<Product>, p: Product)
    ensures Ids(ReplaceById(ps, p)) == Ids(ps)
  {
  }

  /** `p` is in the result exactly when some row carried its id: a product
      with a fresh id is not inserted. */
  lemma ReplaceMembership(ps: seq<Product>, p: Product)
    ensures p in ReplaceById(ps, p) <==> p.id in Ids(ps)
  {
  }

  /** Merging the same product twice is merging it once. */
  lemma ReplaceIdempotent(ps: seq<Product>, p: Product)
    ensures ReplaceById(ReplaceById(ps, p), p) == ReplaceById(ps, p)
  {
  }

  /** Merging a row that is already in a list with unique ids changes nothing:
      the optimistic merge of the edit button, which passes the row itself,
      is a no-op on such a list. */
  lemma ReplaceWithOwnRow(ps: seq<Product>, k: int)
    requires UniqueIds(ps)
    requires 0 <= k < |ps|
    ensures ReplaceById(ps, ps[k]) == ps
  {
    var r := ReplaceById(ps, ps[k]);
    forall i | 0 <= i < |ps| && ps[i].id == ps[k].id
      ensures i == k
    {
      if i < k {
        NoDupDistinct(Ids(ps), i, k);
      } else if k < i {
        NoDupDistinct(Ids(ps), k, i);
      }
    }
  }
}
