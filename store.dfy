/**
 * `recipes.json` and the three operations that go through it:
 * `create_new_recipe`, `publish_recipe` and the catalog read behind
 * `respond_with_public_recipes`. Every operation reads the whole file, and
 * those that change it write the whole catalog back.
 */
module Store {
  import opened Wrappers
  import opened Text
  import opened Catalog
  import opened Protocol

  /** Why a store operation failed (the `Box<dyn Error>` of the source). */
  datatype StoreError =
    | ReadFailed    // the file is missing or is not a JSON list of recipes
    | WriteFailed   // `fs::write` failed
    | IdOverflow    // `v.id + 1` overflowed `usize` (a panic in a debug build)

  /**
   * The storage file. `contents` is `None` when reading it fails (no file,
   * unreadable, or not a JSON list of recipes); `writable` says whether
   * `fs::write` succeeds.
   */
  class RecipeFile {
    var contents: Option<seq<Recipe>>
    var writable: bool

    constructor (contents: Option<seq<Recipe>>, writable: bool)
      ensures this.contents == contents && this.writable == writable
    {
      this.contents := contents;
      this.writable := writable;
    }

    /** `read_local_recipes` */
    method Read() returns (r: Result<seq<Recipe>, StoreError>)
      ensures r.Ok? <==> contents.Some?
      ensures r.Ok? ==> r.value == contents.value
      ensures r.Err? ==> r.error == ReadFailed
    {
      if contents.Some? {
        r := Ok(contents.value);
      } else {
        r := Err(ReadFailed);
      }
    }

    /** `write_local_recipes`: replaces the whole file, or fails and leaves it alone. */
    method Write(rs: seq<Recipe>) returns (r: Result<(), StoreError>)
      modifies this`contents
      ensures r == if writable then Ok(()) else Err(WriteFailed)
      ensures contents == if writable then Some(rs) else old(contents)
    {
      if writable {
        contents := Some(rs);
        r := Ok(());
      } else {
        r := Err(WriteFailed);
      }
    }
  }

  /**
   * `create_new_recipe`: read the catalog, append a private recipe with the
   * next id, write it back. Any failure leaves the file as it was.
   */
  method CreateNewRecipe(file: RecipeFile, name: string, ingredients: string, instructions: string)
    returns (r: Result<(), StoreError>)
    modifies file`contents
    ensures old(file.contents).None? ==> r == Err(ReadFailed)
    ensures old(file.contents).Some? && NextId(old(file.contents).value) > USIZE_MAX ==> r == Err(IdOverflow)
    ensures old(file.contents).Some? && NextId(old(file.contents).value) <= USIZE_MAX ==>
      r == (if file.writable then Ok(()) else Err(WriteFailed))
    ensures file.contents ==
      if r.Ok? then Some(Created(old(file.contents).value, name, ingredients, instructions))
      else old(file.contents)
  {
    var read := file.Read();
    if read.Err? {
      return Err(read.error);
    }
    var recipes := read.value;
    var newId := NextId(recipes);
    if newId > USIZE_MAX {
      return Err(IdOverflow);
    }
    recipes := recipes + [Recipe(newId, name, ingredients, instructions, false)];
    r := file.Write(recipes);
  }

  /**
   * `publish_recipe`: read the catalog into a buffer, mark the matching
   * entries public in place, write it back. Any failure leaves the file as
   * it was; an id that matches nothing still rewrites the same catalog.
   */
  method PublishRecipe(file: RecipeFile, id: Usize) returns (r: Result<(), StoreError>)
    modifies file`contents
    ensures old(file.contents).None? ==> r == Err(ReadFailed)
    ensures old(file.contents).Some? ==> r == (if file.writable then Ok(()) else Err(WriteFailed))
    ensures file.contents ==
      if r.Ok? then Some(Published(old(file.contents).value, id)) else old(file.contents)
  {
    var read := file.Read();
    if read.Err? {
      return Err(read.error);
    }
    var recipes := read.value;
    var buffer := new Recipe[|recipes|](i requires 0 <= i < |recipes| => recipes[i]);
    assert buffer[..] == recipes;
    PublishInPlace(buffer, id);
    r := file.Write(buffer[..]);
  }

  /**
   * The work of the task `respond_with_public_recipes` spawns: read the
   * catalog and build the response for `receiver`; nothing is sent when the
   * read fails.
   */
  method RespondWithPublicRecipes(file: RecipeFile, receiver: PeerId) returns (resp: Option<ListResponse>)
    ensures resp.Some? <==> file.contents.Some?
    ensures resp.Some? ==> resp.value == PublicResponse(file.contents.value, receiver)
  {
    var read := file.Read();
    match read
    case Ok(recipes) =>
      resp := Some(ListResponse(All, PublicRecipes(recipes), receiver));
    case Err(_) =>
      resp := None;
  }
}
