/**
 * The recipe catalog (the contents of `recipes.json`) and the three rules the
 * node applies to it: a new recipe gets the next id, publishing flips the
 * `public` flag of every recipe with a given id, and a list response carries
 * the public recipes only.
 */
module Catalog {
  import opened Text

  /** Rust's `usize` on a 64-bit target. */
  type Usize = n: nat | n <= USIZE_MAX

  datatype Recipe = Recipe(
    id: Usize,
    name: string,
    ingredients: string,
    instructions: string,
    public: bool)

  /** No two recipes share an id. */
  predicate UniqueIds(rs: seq<Recipe>) {
    forall i, j :: 0 <= i < j < |rs| ==> rs[i].id != rs[j].id
  }

  /** The ids are exactly the positions 0, 1, 2, ... */
  predicate IdsAreIndices(rs: seq<Recipe>) {
    forall i :: 0 <= i < |rs| ==> rs[i].id == i
  }

  // ---------------------------------------------------------------------------
  // Creating a recipe
  // ---------------------------------------------------------------------------

  /**
   * The id `create_new_recipe` assigns: one more than the largest id
   * (`max_by_key` on the id), or 0 for an empty catalog. It is a `nat`: for a
   * catalog holding `usize::MAX` it is one past the range of `usize`.
   */
  function NextId(rs: seq<Recipe>): (next: nat)
    ensures rs == [] ==> next == 0
    ensures forall i :: 0 <= i < |rs| ==> rs[i].id < next
  {
    if rs == [] then 0
    else
      var rest := NextId(rs[1..]);
      assert forall i :: 1 <= i < |rs| ==> rs[i] == rs[1..][i - 1];
      if rest <= rs[0].id then rs[0].id + 1 else rest
  }

  /** The next id is the successor of an id that is present: it is the maximum plus one. */
  lemma {:induction false} NextIdAttained(rs: seq<Recipe>)
    requires rs != []
    ensures exists i :: 0 <= i < |rs| && NextId(rs) == rs[i].id + 1
  {
    if NextId(rs) != rs[0].id + 1 {
      NextIdAttained(rs[1..]);
      var i :| 0 <= i < |rs| - 1 && NextId(rs[1..]) == rs[1..][i].id + 1;
      assert NextId(rs) == rs[i + 1].id + 1;
    }
  }

  /** On a catalog numbered 0, 1, 2, ... the next id is its length. */
  lemma NextIdOfIndexed(rs: seq<Recipe>)
    requires IdsAreIndices(rs)
    ensures NextId(rs) == |rs|
  {
    if rs != [] {
      NextIdAttained(rs);
      assert rs[|rs| - 1].id == |rs| - 1;
    }
  }

  /**
   * The catalog after `create_new_recipe`: the old catalog with one private
   * recipe appended, carrying the next id and the three texts verbatim.
   */
  function Created(rs: seq<Recipe>, name: string, ingredients: string, instructions: string): seq<Recipe>
    requires NextId(rs) <= USIZE_MAX
  {
    rs + [Recipe(NextId(rs), name, ingredients, instructions, false)]
  }

  /**
   * Creating appends exactly one recipe and leaves every earlier one in
   * place; the new id collides with no earlier id.
   */
  lemma CreatedShape(rs: seq<Recipe>, name: string, ingredients: string, instructions: string)
    requires NextId(rs) <= USIZE_MAX
    ensures var r := Created(rs, name, ingredients, instructions);
      && |r| == |rs| + 1
      && r[..|rs|] == rs
      && r[|rs|].name == name && r[|rs|].ingredients == ingredients
      && r[|rs|].instructions == instructions && !r[|rs|].public
      && forall i :: 0 <= i < |rs| ==> rs[i].id < r[|rs|].id
  {
  }

  /** Creating keeps ids unique. */
  lemma CreatePreservesUniqueIds(rs: seq<Recipe>, name: string, ingredients: string, instructions: string)
    requires NextId(rs) <= USIZE_MAX
    requires UniqueIds(rs)
    ensures UniqueIds(Created(rs, name, ingredients, instructions))
  {
  }

  /**
   * Starting from an empty catalog, creates hand out 0, 1, 2, ...: a catalog
   * numbered by position stays numbered by position.
   */
  lemma CreateKeepsIdsSequential(rs: seq<Recipe>, name: string, ingredients: string, instructions: string)
    requires IdsAreIndices(rs)
    requires |rs| <= USIZE_MAX
    ensures NextId(rs) == |rs|
    ensures IdsAreIndices(Created(rs, name, ingredients, instructions))
  {
    NextIdOfIndexed(rs);
  }

  // ---------------------------------------------------------------------------
  // Publishing a recipe
  // ---------------------------------------------------------------------------

  /** One recipe after `publish_recipe(id)`: public if its id matches, otherwise as it was. */
  function Mark(r: Recipe, id: nat): (m: Recipe)
    ensures m.id == r.id && m.name == r.name && m.ingredients == r.ingredients
    ensures m.instructions == r.instructions
    ensures m.public == (r.public || r.id == id)
  {
    if r.id == id then r.(public := true) else r
  }

  /** The catalog after `publish_recipe(id)`: every entry marked, in place. */
  function Published(rs: seq<Recipe>, id: nat): (r: seq<Recipe>)
    ensures |r| == |rs|
    ensures forall k :: 0 <= k < |rs| ==> r[k] == Mark(rs[k], id)
  {
    if rs == [] then [] else [Mark(rs[0], id)] + Published(rs[1..], id)
  }

  /** An id that no recipe has leaves the catalog as it was. */
  lemma PublishUnknownIdIsNoOp(rs: seq<Recipe>, id: nat)
    requires forall k :: 0 <= k < |rs| ==> rs[k].id != id
    ensures Published(rs, id) == rs
  {
  }

  /** Publishing twice is publishing once. */
  lemma PublishIdempotent(rs: seq<Recipe>, id: nat)
    ensures Published(Published(rs, id), id) == Published(rs, id)
  {
  }

  /**
   * Publishing keeps length, order and every id; it makes the matching
   * entries public and changes no other entry.
   */
  lemma PublishEffect(rs: seq<Recipe>, id: nat)
    ensures var r := Published(rs, id);
      && |r| == |rs|
      && (forall k :: 0 <= k < |rs| ==> r[k].id == rs[k].id)
      && (forall k :: 0 <= k < |rs| && rs[k].id == id ==> r[k] == rs[k].(public := true))
      && (forall k :: 0 <= k < |rs| && rs[k].id != id ==> r[k] == rs[k])
  {
  }

  /** Publishing keeps the ids, hence unique ids and the next id. */
  lemma PublishKeepsIds(rs: seq<Recipe>, id: nat)
    ensures UniqueIds(rs) ==> UniqueIds(Published(rs, id))
    ensures IdsAreIndices(rs) ==> IdsAreIndices(Published(rs, id))
    ensures NextId(Published(rs, id)) == NextId(rs)
  {
    var r := Published(rs, id);
    if rs != [] {
      NextIdAttained(rs);
      NextIdAttained(r);
    }
  }

  /**
   * `publish_recipe` mutating the loaded `Vec` in place (`iter_mut`, filter
   * on the id, set `public`).
   */
  method PublishInPlace(a: array<Recipe>, id: nat)
    modifies a
    ensures a[..] == Published(old(a[..]), id)
  {
    for i := 0 to a.Length
      invariant forall k :: 0 <= k < i ==> a[k] == Mark(old(a[k]), id)
      invariant forall k :: i <= k < a.Length ==> a[k] == old(a[k])
    {
      if a[i].id == id {
        a[i] := a[i].(public := true);
      }
    }
  }

  // ---------------------------------------------------------------------------
  // The public part of the catalog
  // ---------------------------------------------------------------------------

  /** `recipes.into_iter().filter(|r| r.public).collect()` */
  function PublicRecipes(rs: seq<Recipe>): (pub: seq<Recipe>)
    ensures |pub| <= |rs|
    ensures forall x :: x in pub ==> x in rs && x.public
    ensures forall x :: x in rs && x.public ==> x in pub
  {
    if rs == [] then []
    else (if rs[0].public then [rs[0]] else []) + PublicRecipes(rs[1..])
  }

  /** The filter keeps catalog order: it distributes over concatenation. */
  lemma {:induction false} PublicRecipesAppend(a: seq<Recipe>, b: seq<Recipe>)
    ensures PublicRecipes(a + b) == PublicRecipes(a) + PublicRecipes(b)
  {
    if a != [] {
      assert (a + b)[1..] == a[1..] + b;
      PublicRecipesAppend(a[1..], b);
    } else {
      assert a + b == b;
    }
  }

  /** A catalog that is entirely public is answered in full; one with no public entry, with nothing. */
  lemma {:induction false} PublicRecipesExtremes(rs: seq<Recipe>)
    ensures (forall k :: 0 <= k < |rs| ==> rs[k].public) ==> PublicRecipes(rs) == rs
    ensures (forall k :: 0 <= k < |rs| ==> !rs[k].public) ==> PublicRecipes(rs) == []
  {
    if rs != [] {
      PublicRecipesExtremes(rs[1..]);
    }
  }

  /** A freshly created recipe is private, so it is not visible to other peers. */
  lemma CreateHidesNewRecipe(rs: seq<Recipe>, name: string, ingredients: string, instructions: string)
    requires NextId(rs) <= USIZE_MAX
    ensures PublicRecipes(Created(rs, name, ingredients, instructions)) == PublicRecipes(rs)
  {
    var x := Recipe(NextId(rs), name, ingredients, instructions, false);
    PublicRecipesAppend(rs, [x]);
    assert [x][1..] == [];
  }

  /** After publishing `id`, every recipe with that id is in the public answer. */
  lemma PublishRevealsRecipe(rs: seq<Recipe>, id: nat, k: nat)
    requires k < |rs| && rs[k].id == id
    ensures rs[k].(public := true) in PublicRecipes(Published(rs, id))
  {
    assert Published(rs, id)[k] == rs[k].(public := true);
  }
}
