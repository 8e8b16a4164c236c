/**
 * The text commands read from standard input: which handler a line goes
 * to, and how each handler takes its arguments apart.
 */
module Commands {
  import opened Wrappers
  import opened Text
  import opened Catalog
  import opened Protocol

  datatype Command = ListPeers | ListRecipes | CreateRecipes | PublishRecipes | Unknown

  /**
   * The match of the event loop: exactly `ls p`, then the prefixes `ls r`,
   * `create r` and `publish r`, in that order; anything else is unknown
   * (and panics).
   */
  function Dispatch(line: string): Command {
    if line == "ls p" then ListPeers
    else if StartsWith(line, "ls r") then ListRecipes
    else if StartsWith(line, "create r") then CreateRecipes
    else if StartsWith(line, "publish r") then PublishRecipes
    else Unknown
  }

  /**
   * The three prefixes exclude one another and `ls p`, so each handler is
   * chosen exactly by its own prefix, whatever the order of the arms.
   */
  lemma DispatchByPrefix(line: string)
    ensures Dispatch(line) == ListPeers <==> line == "ls p"
    ensures Dispatch(line) == ListRecipes <==> StartsWith(line, "ls r")
    ensures Dispatch(line) == CreateRecipes <==> StartsWith(line, "create r")
    ensures Dispatch(line) == PublishRecipes <==> StartsWith(line, "publish r")
    ensures Dispatch(line) == Unknown <==>
      line != "ls p" && !StartsWith(line, "ls r") && !StartsWith(line, "create r")
      && !StartsWith(line, "publish r")
  {
    if StartsWith(line, "ls r") {
      assert line[3] == 'r';
    }
    if StartsWith(line, "create r") {
      assert line[0] == 'c';
    }
    if StartsWith(line, "publish r") {
      assert line[0] == 'p';
    }
  }

  // ---------------------------------------------------------------------------
  // create r name|ingredients|instructions
  // ---------------------------------------------------------------------------

  datatype CreateArgs =
    | NotCreate                 // the line does not start with `create r`: nothing happens
    | TooFewFields(count: nat)  // fewer than three `|`-separated fields: nothing happens
    | Fields(name: string, ingredients: string, instructions: string)

  /**
   * `handle_create_recipes`: split what follows `create r` on `|`; the first
   * three pieces, untrimmed, are the fields, and further pieces are ignored.
   */
  function ParseCreate(cmd: string): (a: CreateArgs)
    ensures a.NotCreate? <==> !StartsWith(cmd, "create r")
    ensures a.TooFewFields? ==> a.count < 3
    ensures a.Fields? ==> '|' !in a.name && '|' !in a.ingredients && '|' !in a.instructions
  {
    match StripPrefix(cmd, "create r")
    case None => NotCreate
    case Some(rest) => FieldsOf(Split(rest, '|'))
  }

  /** Too few pieces, or the first three. */
  function FieldsOf(elements: seq<string>): CreateArgs {
    if |elements| < 3 then TooFewFields(|elements|)
    else Fields(elements[0], elements[1], elements[2])
  }

  /** What `handle_create_recipes` sees after the prefix. */
  lemma ParseCreateOf(rest: string)
    ensures ParseCreate("create r" + rest) == FieldsOf(Split(rest, '|'))
  {
    StripPrefixOfConcat("create r", rest);
  }

  /** The fields are accepted exactly when the arguments hold at least two `|`. */
  lemma ParseCreateNeedsTwoBars(rest: string)
    ensures ParseCreate("create r" + rest).Fields? <==> multiset(rest)['|'] >= 2
    ensures ParseCreate("create r" + rest).TooFewFields? <==> multiset(rest)['|'] < 2
  {
    StripPrefixOfConcat("create r", rest);
    SplitCount(rest, '|');
  }

  /**
   * Fields without `|` come back verbatim, whitespace included, and any
   * fields after the third are dropped.
   */
  lemma ParseCreateRoundTrip(name: string, ingredients: string, instructions: string, extra: seq<string>)
    requires '|' !in name && '|' !in ingredients && '|' !in instructions
    requires forall i :: 0 <= i < |extra| ==> '|' !in extra[i]
    ensures ParseCreate("create r" + Join([name, ingredients, instructions] + extra, '|'))
         == Fields(name, ingredients, instructions)
  {
    var parts := [name, ingredients, instructions] + extra;
    NoBarInParts(name, ingredients, instructions, extra);
    ParseCreateOfJoin(parts);
  }

  lemma NoBarInParts(name: string, ingredients: string, instructions: string, extra: seq<string>)
    requires '|' !in name && '|' !in ingredients && '|' !in instructions
    requires forall i :: 0 <= i < |extra| ==> '|' !in extra[i]
    ensures forall i :: 0 <= i < 3 + |extra| ==> '|' !in ([name, ingredients, instructions] + extra)[i]
  {
    var parts := [name, ingredients, instructions] + extra;
    forall i | 0 <= i < |parts|
      ensures '|' !in parts[i]
    {
      if i >= 3 {
        assert parts[i] == extra[i - 3];
      }
    }
  }

  lemma ParseCreateOfJoin(parts: seq<string>)
    requires |parts| >= 3
    requires forall i :: 0 <= i < |parts| ==> '|' !in parts[i]
    ensures ParseCreate("create r" + Join(parts, '|')) == Fields(parts[0], parts[1], parts[2])
  {
    ParseCreateOf(Join(parts, '|'));
    SplitJoin(parts, '|');
  }

  /**
   * The line as the user types it, `create r<name>|<ingredients>|<instructions>`,
   * gives the three fields verbatim: `create r Soup|water,salt|boil` names
   * the recipe " Soup", with the space that follows `create r`.
   */
  lemma ParseCreateKeepsLeadingSpace(name: string, ingredients: string, instructions: string)
    requires '|' !in name && '|' !in ingredients && '|' !in instructions
    ensures ParseCreate("create r" + name + "|" + ingredients + "|" + instructions)
         == Fields(name, ingredients, instructions)
  {
    var parts := [name, ingredients, instructions];
    JoinThree(name, ingredients, instructions, '|');
    ParseCreateOfJoin(parts);
    assert "create r" + name + "|" + ingredients + "|" + instructions
        == "create r" + (name + "|" + ingredients + "|" + instructions);
  }

  // ---------------------------------------------------------------------------
  // publish r <id>
  // ---------------------------------------------------------------------------

  datatype PublishArg =
    | NotPublish              // the line does not start with `publish r`: nothing happens
    | InvalidId(text: string) // not a `usize`: the handler panics
    | Id(id: Usize)

  /** `handle_publish_recipes`: trim what follows `publish r` and parse it as a `usize`. */
  function ParsePublish(cmd: string): (a: PublishArg)
    ensures a.NotPublish? <==> !StartsWith(cmd, "publish r")
    ensures a.InvalidId? ==> IsTrimmed(a.text)
  {
    match StripPrefix(cmd, "publish r")
    case None => NotPublish
    case Some(rest) =>
      match ParseUsize(Trim(rest))
      case Some(n) => Id(n)
      case None => InvalidId(Trim(rest))
  }

  /** Any `usize`, in decimal and surrounded by any whitespace, is read back. */
  lemma ParsePublishRoundTrip(pre: string, n: nat, post: string)
    requires AllWhitespace(pre) && AllWhitespace(post)
    requires n <= USIZE_MAX
    ensures ParsePublish("publish r" + pre + DecimalString(n) + post) == Id(n)
  {
    var d := DecimalString(n);
    assert "publish r" + pre + d + post == "publish r" + (pre + d + post);
    StripPrefixOfConcat("publish r", pre + d + post);
    TrimPadded(pre, d, post);
    ParseUsizeRoundTrip(n);
  }

  /** The command as typed, `publish r <id>`, publishes that id: `publish r 0` publishes id 0. */
  lemma ParsePublishAsTyped(n: nat)
    requires n <= USIZE_MAX
    ensures ParsePublish("publish r " + DecimalString(n)) == Id(n)
  {
    var d := DecimalString(n);
    StripPrefixOfConcat("publish r", " " + d);
    assert "publish r" + (" " + d) == "publish r " + d;
    TrimPadded(" ", d, "");
    assert " " + d + "" == " " + d;
    ParseUsizeRoundTrip(n);
  }

  /** A missing id, with or without whitespace after `publish r`, is invalid (and so panics). */
  lemma ParsePublishRejectsMissing(w: string)
    requires AllWhitespace(w)
    ensures ParsePublish("publish r" + w) == InvalidId("")
  {
    StripPrefixOfConcat("publish r", w);
    TrimPadded(w, "", "");
    assert w + "" + "" == w;
  }

  /**
   * Any id that begins with `-` is invalid: `usize` does not accept a `-`
   * sign, whatever follows it. The invalid text keeps the sign.
   */
  lemma ParsePublishRejectsNegative(t: string)
    ensures var a := ParsePublish("publish r" + ("-" + t));
      a.InvalidId? && a.text != [] && a.text[0] == '-'
  {
    var rest := "-" + t;
    StripPrefixOfConcat("publish r", rest);
    assert !IsWhitespace(rest[0]);
    assert TrimStart(rest) == rest;
    assert !AllWhitespace(rest[0..]);
    var r := TrimEnd(rest);
    assert r != [] && r[0] == '-';
  }

  /** In particular `publish r -1` reports the invalid id "-1". */
  lemma ParsePublishRejectsMinusOne()
    ensures ParsePublish("publish r -1") == InvalidId("-1")
  {
    StripPrefixOfConcat("publish r", " -1");
    assert "publish r" + " -1" == "publish r -1";
    TrimPadded(" ", "-1", "");
    assert " " + "-1" + "" == " -1";
  }

  /** An id past `usize::MAX` is invalid rather than wrapped. */
  lemma ParsePublishRejectsOverflow(n: nat)
    requires n > USIZE_MAX
    ensures ParsePublish("publish r " + DecimalString(n)) == InvalidId(DecimalString(n))
  {
    var d := DecimalString(n);
    StripPrefixOfConcat("publish r", " " + d);
    assert "publish r" + (" " + d) == "publish r " + d;
    TrimPadded(" ", d, "");
    assert " " + d + "" == " " + d;
    ParseUsizeOverflow(n);
  }

  // ---------------------------------------------------------------------------
  // ls r ...
  // ---------------------------------------------------------------------------

  datatype ListCommand =
    | RequestAll             // broadcast `ListRequest { mode: ALL }`
    | RequestOne(peer: PeerId) // broadcast `ListRequest { mode: One(peer) }`
    | ShowLocal              // print the local catalog

  /** The request a list command broadcasts, if any. */
  function RequestOf(lc: ListCommand): (req: Option<ListRequest>)
    ensures req.Some? <==> !lc.ShowLocal?
    ensures lc.RequestAll? ==> req == Some(ListRequest(All))
    ensures lc.RequestOne? ==> req == Some(ListRequest(One(lc.peer)))
  {
    match lc
    case RequestAll => Some(ListRequest(All))
    case RequestOne(p) => Some(ListRequest(One(p)))
    case ShowLocal => None
  }

  /**
   * `handle_list_recipes` as written: it strips `ls r` without the space
   * that follows it in every command the user types.
   */
  function ParseListAsWritten(cmd: string): ListCommand {
    match StripPrefix(cmd, "ls r")
    case Some(rest) => if rest == "all" then RequestAll else RequestOne(rest)
    case None => ShowLocal
  }

  /**
   * Under the dispatcher's `starts_with("ls r")` the local listing is never
   * reached, `All` needs the unspaced line `ls rall`, and `ls r all` asks
   * for a peer named " all".
   */
  lemma ParseListAsWrittenQuirks(cmd: string)
    requires Dispatch(cmd) == ListRecipes
    ensures !ParseListAsWritten(cmd).ShowLocal?
    ensures ParseListAsWritten(cmd) == RequestAll <==> cmd == "ls rall"
    ensures cmd != "ls rall" ==> ParseListAsWritten(cmd) == RequestOne(cmd[4..])
    ensures ParseListAsWritten("ls r all") == RequestOne(" all")
    ensures ParseListAsWritten("ls r") == RequestOne("")
  {
    DispatchByPrefix(cmd);
    if cmd == "ls rall" {
      StripPrefixOfConcat("ls r", "all");
      assert "ls r" + "all" == "ls rall";
    }
    StripPrefixOfConcat("ls r", " all");
    assert "ls r" + " all" == "ls r all";
    StripPrefixOfConcat("ls r", "");
    assert "ls r" + "" == "ls r";
  }

  /**
   * A peer request typed as `ls r <peer>` asks for a peer whose id begins
   * with a space, which no `PeerId::to_string()` does, so it is never
   * answered.
   */
  lemma ParseListAsWrittenPeer(peer: PeerId)
    ensures ParseListAsWritten("ls r " + peer) == RequestOne(" " + peer)
  {
    assert "ls r " + peer == "ls r" + (" " + peer);
    StripPrefixOfConcat("ls r", " " + peer);
    assert (" " + peer)[0] != "all"[0];
  }

  /**
   * `handle_list_recipes` as intended: `ls r` lists the local catalog,
   * `ls r all` asks everyone, `ls r <peer>` asks one peer.
   */
  function ParseList(cmd: string): ListCommand {
    match StripPrefix(cmd, "ls r ")
    case Some(rest) => if rest == "all" then RequestAll else RequestOne(rest)
    case None => ShowLocal
  }

  lemma ParseListIntended(peer: PeerId)
    ensures ParseList("ls r") == ShowLocal
    ensures ParseList("ls r all") == RequestAll
    ensures peer != "all" ==> ParseList("ls r " + peer) == RequestOne(peer)
  {
    StripPrefixOfConcat("ls r ", "all");
    assert "ls r " + "all" == "ls r all";
    StripPrefixOfConcat("ls r ", peer);
  }
}
