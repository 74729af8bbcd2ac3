/** Node prefixes on resource ids, and their rewriting inside JSON bodies
    (router/kerneldock_router.py). */
module ResourceIds {
  import opened Basics

  const SEP: char := ':'

  const ID_KEYS: set<string> := {"session_id", "job_id", "sandbox_id", "sandboxID"}

  predicate NameChar(c: char) {
    'a' <= c <= 'z' || '0' <= c <= '9' || c == '_' || c == '-'
  }

  /** What NODE_NAME_RE.match accepts: `$` also matches before a final newline. */
  predicate IsNodeName(name: string) {
    var body := WithoutNewline(name);
    body != "" && forall i :: 0 <= i < |body| ==> NameChar(body[i])
  }

  function WithoutNewline(name: string): string {
    if name != "" && name[|name| - 1] == '\n' then name[..|name| - 1] else name
  }

  /** The name is a word of small letters, digits, underscores and dashes, perhaps with a newline
      behind it. */
  predicate IsWordWith(name: string, body: string, end: string) {
    && name == body + end && body != "" && (end == "" || end == "\n")
    && forall i :: 0 <= i < |body| ==> 'a' <= body[i] <= 'z' || '0' <= body[i] <= '9' || body[i] == '_' || body[i] == '-'
  }

  lemma NodeNamesExactly(name: string)
    ensures IsNodeName(name) <==> exists body, end :: IsWordWith(name, body, end)
  {
    var body := WithoutNewline(name);
    var end := name[|body|..];
    assert name == body + end;
    if IsNodeName(name) {
      forall i | 0 <= i < |body|
        ensures 'a' <= body[i] <= 'z' || '0' <= body[i] <= '9' || body[i] == '_' || body[i] == '-'
      {
        assert NameChar(body[i]);
      }
      assert IsWordWith(name, body, end);
    }
    if word, tail :| IsWordWith(name, word, tail) {
      assert word[|word| - 1] != '\n';
      assert body == word;
    }
  }

  lemma NodeNameHasNoSeparator(name: string)
    requires IsNodeName(name)
    ensures SEP !in name
  {
    var body := WithoutNewline(name);
    forall i | 0 <= i < |name| ensures name[i] != SEP {
      if i < |body| {
        assert NameChar(body[i]);
      }
    }
  }

  /** The text before and after the first separator (str.split with maxsplit 1). */
  function Cut(value: string): (r: (string, string))
    requires SEP in value
    ensures SEP !in r.0
    ensures value == r.0 + [SEP] + r.1
  {
    if value[0] == SEP then ("", value[1..])
    else
      var (before, after) := Cut(value[1..]);
      ([value[0]] + before, after)
  }

  lemma {:induction false} CutUnique(node: string, rest: string)
    requires SEP !in node
    ensures Cut(node + [SEP] + rest) == (node, rest)
  {
    if node == "" {
      assert ("" + [SEP] + rest)[1..] == rest;
    } else {
      CutUnique(node[1..], rest);
      var value := node + [SEP] + rest;
      assert value[1..] == node[1..] + [SEP] + rest;
      assert node[0] in node && value[0] == node[0];
      assert value[|node|] == SEP;
      assert [node[0]] + node[1..] == node;
    }
  }

  /** split_prefixed_id: the node and the rest, or nothing and the whole value. */
  function SplitPrefixedId(value: string, known: set<string>): (Option<string>, string) {
    if SEP in value then
      var (node, rest) := Cut(value);
      if node in known && rest != "" then (Some(node), rest) else (None, value)
    else (None, value)
  }

  lemma SplitNonEmpty(value: string, known: set<string>)
    requires value != ""
    ensures SplitPrefixedId(value, known).1 != ""
  {}

  predicate HasPrefix(value: string, node: string) {
    node + [SEP] <= value
  }

  /** An id as the router hands it to clients. */
  function Mint(node: string, id: string): (r: string)
    ensures HasPrefix(id, node) ==> r == id
    ensures HasPrefix(r, node)
  {
    if HasPrefix(id, node) then id else node + [SEP] + id
  }

  /** Splitting is decided by the value alone: a known node and a non-empty rest around the
      first separator. */
  lemma SplitsExactly(value: string, known: set<string>, node: string, rest: string)
    requires SEP !in node
    ensures SplitPrefixedId(value, known) == (Some(node), rest)
            <==> node in known && rest != "" && value == node + [SEP] + rest
  {
    if value == node + [SEP] + rest {
      CutUnique(node, rest);
      assert value[|node|] == SEP;
    }
  }

  /** A minted id leads back to its node with the raw id restored exactly when the raw id did
      not already carry the node's prefix; no other node is ever named. */
  lemma MintedSplitsBack(node: string, id: string, known: set<string>)
    requires IsNodeName(node) && id != ""
    ensures SplitPrefixedId(Mint(node, id), known).0 in {None, Some(node)}
    ensures node !in known ==> SplitPrefixedId(Mint(node, id), known) == (None, Mint(node, id))
    ensures node in known ==>
              (SplitPrefixedId(Mint(node, id), known) == (Some(node), id) <==> !HasPrefix(id, node))
  {
    NodeNameHasNoSeparator(node);
    var minted := Mint(node, id);
    var rest := minted[|node| + 1..];
    assert minted == node + [SEP] + rest;
    CutUnique(node, rest);
    assert minted[|node|] == SEP;
    if HasPrefix(id, node) {
      assert |rest| < |id|;
    } else {
      assert rest == id;
    }
  }

  // ---------- JSON ----------

  datatype Json =
    | Null
    | Bool(b: bool)
    | Num(n: real)
    | Str(s: string)
    | Arr(items: seq<Json>)
    | Obj(members: seq<Member>)

  datatype Member = Member(key: string, value: Json)

  /** A member whose value is a resource id. */
  predicate IsId(m: Member) {
    m.key in ID_KEYS && m.value.Str? && m.value.s != ""
  }

  /** Only non-empty texts under these four keys are ids. */
  lemma IdsExactly(key: string, value: Json)
    ensures IsId(Member(key, value))
            <==> value.Str? && |value.s| > 0
                 && (key == "session_id" || key == "job_id" || key == "sandbox_id" || key == "sandboxID")
  {}

  /** reprefix_ids */
  function Reprefix(j: Json, node: string): Json {
    match j
    case Arr(items) => Arr(ReprefixItems(items, node))
    case Obj(members) => Obj(ReprefixMembers(members, node))
    case _ => j
  }

  function ReprefixItems(items: seq<Json>, node: string): seq<Json> {
    if items == [] then [] else [Reprefix(items[0], node)] + ReprefixItems(items[1..], node)
  }

  function ReprefixMembers(members: seq<Member>, node: string): seq<Member> {
    if members == [] then []
    else
      var m := members[0];
      var value :=
        if IsId(m) && !HasPrefix(m.value.s, node) then Str(node + [SEP] + m.value.s)
        else Reprefix(m.value, node);
      [Member(m.key, value)] + ReprefixMembers(members[1..], node)
  }

  /** strip_id_prefixes: the cleaned value and the node names found, in the order of the walk. */
  function Strip(j: Json, known: set<string>): (Json, seq<string>) {
    match j
    case Arr(items) =>
      var (cleaned, found) := StripItems(items, known);
      (Arr(cleaned), found)
    case Obj(members) =>
      var (cleaned, found) := StripMembers(members, known);
      (Obj(cleaned), found)
    case _ => (j, [])
  }

  function StripItems(items: seq<Json>, known: set<string>): (seq<Json>, seq<string>) {
    if items == [] then ([], [])
    else
      var (first, found) := Strip(items[0], known);
      var (rest, more) := StripItems(items[1..], known);
      ([first] + rest, found + more)
  }

  function StripMembers(members: seq<Member>, known: set<string>): (seq<Member>, seq<string>) {
    if members == [] then ([], [])
    else
      var m := members[0];
      var (rest, more) := StripMembers(members[1..], known);
      if IsId(m) && SplitPrefixedId(m.value.s, known).0.Some? then
        var (node, raw) := SplitPrefixedId(m.value.s, known);
        ([Member(m.key, Str(raw))] + rest, [node.value] + more)
      else
        var (value, found) := Strip(m.value, known);
        ([Member(m.key, value)] + rest, found + more)
  }

  function Pinned(found: seq<string>): Option<string> {
    if found == [] then None else Some(found[0])
  }

  // ---------- A value as its ids and everything else ----------

  /** The resource ids of a value, in the order of the walk. */
  function Ids(j: Json): seq<string> {
    match j
    case Arr(items) => IdsOfItems(items)
    case Obj(members) => IdsOfMembers(members)
    case _ => []
  }

  function IdsOfItems(items: seq<Json>): seq<string> {
    if items == [] then [] else Ids(items[0]) + IdsOfItems(items[1..])
  }

  function IdsOfMembers(members: seq<Member>): seq<string> {
    if members == [] then []
    else (if IsId(members[0]) then [members[0].value.s] else Ids(members[0].value)) + IdsOfMembers(members[1..])
  }

  /** The value with every resource id blanked out. */
  function Frame(j: Json): Json {
    match j
    case Arr(items) => Arr(FrameOfItems(items))
    case Obj(members) => Obj(FrameOfMembers(members))
    case _ => j
  }

  function FrameOfItems(items: seq<Json>): seq<Json> {
    if items == [] then [] else [Frame(items[0])] + FrameOfItems(items[1..])
  }

  function FrameOfMembers(members: seq<Member>): seq<Member> {
    if members == [] then []
    else
      var m := members[0];
      [Member(m.key, if IsId(m) then Str("*") else Frame(m.value))] + FrameOfMembers(members[1..])
  }

  function MintAll(ids: seq<string>, node: string): seq<string> {
    seq(|ids|, i requires 0 <= i < |ids| => Mint(node, ids[i]))
  }

  function RawAll(ids: seq<string>, known: set<string>): seq<string> {
    seq(|ids|, i requires 0 <= i < |ids| => SplitPrefixedId(ids[i], known).1)
  }

  /** The nodes named by the ids. */
  function NodesOf(ids: seq<string>, known: set<string>): seq<string> {
    if ids == [] then []
    else
      var node := SplitPrefixedId(ids[0], known).0;
      (if node.Some? then [node.value] else []) + NodesOf(ids[1..], known)
  }

  lemma {:induction false} NodesOfConcat(a: seq<string>, b: seq<string>, known: set<string>)
    ensures NodesOf(a + b, known) == NodesOf(a, known) + NodesOf(b, known)
  {
    if a == [] {
      assert a + b == b;
    } else {
      assert (a + b)[1..] == a[1..] + b;
      NodesOfConcat(a[1..], b, known);
    }
  }

  /** The same frame has room for the same number of ids. */
  lemma {:induction false} SameFrameSameCount(a: Json, b: Json)
    requires Frame(a) == Frame(b)
    ensures |Ids(a)| == |Ids(b)|
    decreases a
  {
    match a {
      case Arr(items) => SameFrameItems(items, b.items);
      case Obj(members) => SameFrameMembers(members, b.members);
      case _ =>
    }
  }

  lemma {:induction false} SameFrameItems(a: seq<Json>, b: seq<Json>)
    requires FrameOfItems(a) == FrameOfItems(b)
    ensures |IdsOfItems(a)| == |IdsOfItems(b)| && |a| == |b|
    decreases a
  {
    if a != [] {
      assert b != [];
      assert FrameOfItems(a)[0] == FrameOfItems(b)[0] && FrameOfItems(a)[1..] == FrameOfItems(b)[1..];
      SameFrameSameCount(a[0], b[0]);
      SameFrameItems(a[1..], b[1..]);
    }
  }

  lemma {:induction false} SameFrameMembers(a: seq<Member>, b: seq<Member>)
    requires FrameOfMembers(a) == FrameOfMembers(b)
    ensures |IdsOfMembers(a)| == |IdsOfMembers(b)| && |a| == |b|
    decreases a
  {
    if a != [] {
      assert b != [];
      SameFrameMember(a, b);
      if !IsId(a[0]) {
        SameFrameSameCount(a[0].value, b[0].value);
      }
      SameFrameMembers(a[1..], b[1..]);
    }
  }

  /** Members of equal frames agree on their key and on whether they hold an id. */
  lemma SameFrameMember(a: seq<Member>, b: seq<Member>)
    requires a != [] && b != [] && FrameOfMembers(a) == FrameOfMembers(b)
    ensures a[0].key == b[0].key
    ensures IsId(a[0]) <==> IsId(b[0])
    ensures !IsId(a[0]) ==> Frame(a[0].value) == Frame(b[0].value)
    ensures FrameOfMembers(a[1..]) == FrameOfMembers(b[1..])
  {
    assert FrameOfMembers(a)[0] == FrameOfMembers(b)[0] && FrameOfMembers(a)[1..] == FrameOfMembers(b)[1..];
  }

  lemma SplitConcat<T>(a: seq<T>, b: seq<T>, c: seq<T>, d: seq<T>)
    requires a + b == c + d && |a| == |c|
    ensures a == c && b == d
  {
    assert a == (a + b)[..|a|] && b == (a + b)[|a|..];
    assert c == (c + d)[..|c|] && d == (c + d)[|c|..];
  }

  /** A value is determined by its frame and its ids. */
  lemma {:induction false} Determined(a: Json, b: Json)
    requires Frame(a) == Frame(b) && Ids(a) == Ids(b)
    ensures a == b
    decreases a
  {
    match a {
      case Arr(items) => DeterminedItems(items, b.items);
      case Obj(members) => DeterminedMembers(members, b.members);
      case _ =>
    }
  }

  lemma {:induction false} DeterminedItems(a: seq<Json>, b: seq<Json>)
    requires FrameOfItems(a) == FrameOfItems(b) && IdsOfItems(a) == IdsOfItems(b)
    ensures a == b
    decreases a
  {
    if a == [] {
      assert b == [];
    } else {
      assert b != [];
      assert FrameOfItems(a)[0] == FrameOfItems(b)[0] && FrameOfItems(a)[1..] == FrameOfItems(b)[1..];
      SameFrameSameCount(a[0], b[0]);
      SplitConcat(Ids(a[0]), IdsOfItems(a[1..]), Ids(b[0]), IdsOfItems(b[1..]));
      Determined(a[0], b[0]);
      DeterminedItems(a[1..], b[1..]);
      assert a == [a[0]] + a[1..] && b == [b[0]] + b[1..];
    }
  }

  lemma {:induction false} DeterminedMembers(a: seq<Member>, b: seq<Member>)
    requires FrameOfMembers(a) == FrameOfMembers(b) && IdsOfMembers(a) == IdsOfMembers(b)
    ensures a == b
    decreases a
  {
    if a == [] {
      assert b == [];
    } else {
      assert b != [];
      SameFrameMember(a, b);
      if IsId(a[0]) {
        SplitConcat([a[0].value.s], IdsOfMembers(a[1..]), [b[0].value.s], IdsOfMembers(b[1..]));
        assert [a[0].value.s][0] == [b[0].value.s][0];
      } else {
        SameFrameSameCount(a[0].value, b[0].value);
        SplitConcat(Ids(a[0].value), IdsOfMembers(a[1..]), Ids(b[0].value), IdsOfMembers(b[1..]));
        Determined(a[0].value, b[0].value);
      }
      DeterminedMembers(a[1..], b[1..]);
      assert a == [a[0]] + a[1..] && b == [b[0]] + b[1..];
    }
  }

  // ---------- What rewriting does ----------

  /** Reprefixing mints every id and changes nothing else. */
  lemma {:induction false} ReprefixMints(j: Json, node: string)
    ensures Frame(Reprefix(j, node)) == Frame(j)
    ensures Ids(Reprefix(j, node)) == MintAll(Ids(j), node)
    decreases j
  {
    match j {
      case Arr(items) => ReprefixMintsItems(items, node);
      case Obj(members) => ReprefixMintsMembers(members, node);
      case _ =>
    }
  }

  lemma {:induction false} ReprefixMintsItems(items: seq<Json>, node: string)
    ensures FrameOfItems(ReprefixItems(items, node)) == FrameOfItems(items)
    ensures IdsOfItems(ReprefixItems(items, node)) == MintAll(IdsOfItems(items), node)
    decreases items
  {
    if items != [] {
      ReprefixMints(items[0], node);
      ReprefixMintsItems(items[1..], node);
      var r := ReprefixItems(items, node);
      assert r[0] == Reprefix(items[0], node) && r[1..] == ReprefixItems(items[1..], node);
    }
  }

  lemma {:induction false} ReprefixMintsMembers(members: seq<Member>, node: string)
    ensures FrameOfMembers(ReprefixMembers(members, node)) == FrameOfMembers(members)
    ensures IdsOfMembers(ReprefixMembers(members, node)) == MintAll(IdsOfMembers(members), node)
    decreases members
  {
    if members != [] {
      var m := members[0];
      ReprefixMintsMembers(members[1..], node);
      var r := ReprefixMembers(members, node);
      assert r[1..] == ReprefixMembers(members[1..], node);
      if IsId(m) {
        assert Reprefix(m.value, node) == m.value;
        assert r[0] == Member(m.key, Str(Mint(node, m.value.s)));
        assert IsId(r[0]);
      } else {
        ReprefixMints(m.value, node);
        assert r[0] == Member(m.key, Reprefix(m.value, node));
        assert !IsId(r[0]) by { ReprefixKeepsStrings(m.value, node); }
      }
    }
  }

  lemma ReprefixKeepsStrings(j: Json, node: string)
    ensures Reprefix(j, node).Str? <==> j.Str?
    ensures j.Str? ==> Reprefix(j, node) == j
  {}

  /** Stripping takes the raw id out of every id with a known prefix, changes nothing else and
      finds the nodes in the order of the walk. */
  lemma {:induction false} StripTakesRaw(j: Json, known: set<string>)
    ensures Frame(Strip(j, known).0) == Frame(j)
    ensures Ids(Strip(j, known).0) == RawAll(Ids(j), known)
    ensures Strip(j, known).1 == NodesOf(Ids(j), known)
    decreases j
  {
    match j {
      case Arr(items) => StripTakesRawItems(items, known);
      case Obj(members) => StripTakesRawMembers(members, known);
      case _ =>
    }
  }

  lemma ItemsCons(x: Json, r: seq<Json>)
    ensures FrameOfItems([x] + r) == [Frame(x)] + FrameOfItems(r)
    ensures IdsOfItems([x] + r) == Ids(x) + IdsOfItems(r)
  {
    assert ([x] + r)[1..] == r;
  }

  lemma RawAllConcat(a: seq<string>, b: seq<string>, known: set<string>)
    ensures RawAll(a + b, known) == RawAll(a, known) + RawAll(b, known)
  {}

  lemma StripItemsStep(items: seq<Json>, known: set<string>)
    requires items != []
    ensures StripItems(items, known).0 == [Strip(items[0], known).0] + StripItems(items[1..], known).0
    ensures StripItems(items, known).1 == Strip(items[0], known).1 + StripItems(items[1..], known).1
  {}

  lemma {:induction false} StripTakesRawItems(items: seq<Json>, known: set<string>)
    ensures FrameOfItems(StripItems(items, known).0) == FrameOfItems(items)
    ensures IdsOfItems(StripItems(items, known).0) == RawAll(IdsOfItems(items), known)
    ensures StripItems(items, known).1 == NodesOf(IdsOfItems(items), known)
    decreases items
  {
    if items != [] {
      var x, rest := items[0], items[1..];
      StripTakesRaw(x, known);
      StripTakesRawItems(rest, known);
      StripItemsStep(items, known);
      hide Strip, StripItems, Frame, FrameOfItems, Ids, IdsOfItems, RawAll, NodesOf;
      assert items == [x] + rest;
      ItemsCons(x, rest);
      ItemsCons(Strip(x, known).0, StripItems(rest, known).0);
      RawAllConcat(Ids(x), IdsOfItems(rest), known);
      NodesOfConcat(Ids(x), IdsOfItems(rest), known);
    }
  }

  function IdsOfMember(m: Member): seq<string> {
    if IsId(m) then [m.value.s] else Ids(m.value)
  }

  function FrameOfMember(m: Member): Member {
    Member(m.key, if IsId(m) then Str("*") else Frame(m.value))
  }

  lemma MembersCons(m: Member, r: seq<Member>)
    ensures FrameOfMembers([m] + r) == [FrameOfMember(m)] + FrameOfMembers(r)
    ensures IdsOfMembers([m] + r) == IdsOfMember(m) + IdsOfMembers(r)
  {
    assert ([m] + r)[1..] == r;
  }

  /** One member after stripping, and the nodes found in it. */
  function StripMember(m: Member, known: set<string>): (Member, seq<string>) {
    if IsId(m) && SplitPrefixedId(m.value.s, known).0.Some? then
      var (node, raw) := SplitPrefixedId(m.value.s, known);
      (Member(m.key, Str(raw)), [node.value])
    else
      var (value, found) := Strip(m.value, known);
      (Member(m.key, value), found)
  }

  lemma StripMembersStep(members: seq<Member>, known: set<string>)
    requires members != []
    ensures StripMembers(members, known).0 == [StripMember(members[0], known).0] + StripMembers(members[1..], known).0
    ensures StripMembers(members, known).1 == StripMember(members[0], known).1 + StripMembers(members[1..], known).1
  {}

  lemma StripMemberTakesRaw(m: Member, known: set<string>)
    requires !IsId(m) ==> Frame(Strip(m.value, known).0) == Frame(m.value)
    requires !IsId(m) ==> Ids(Strip(m.value, known).0) == RawAll(Ids(m.value), known)
    requires !IsId(m) ==> Strip(m.value, known).1 == NodesOf(Ids(m.value), known)
    requires !IsId(m) ==> (m.value.Str? <==> Strip(m.value, known).0.Str?) && (m.value.Str? ==> Strip(m.value, known).0 == m.value)
    ensures var (n, found) := StripMember(m, known);
            && FrameOfMember(n) == FrameOfMember(m)
            && IdsOfMember(n) == RawAll(IdsOfMember(m), known)
            && found == NodesOf(IdsOfMember(m), known)
  {
    hide Frame, Ids;
    if IsId(m) {
      SplitNonEmpty(m.value.s, known);
      assert NodesOf([], known) == [];
      assert [m.value.s][1..] == [];
    }
  }

  lemma {:induction false} StripTakesRawMembers(members: seq<Member>, known: set<string>)
    ensures FrameOfMembers(StripMembers(members, known).0) == FrameOfMembers(members)
    ensures IdsOfMembers(StripMembers(members, known).0) == RawAll(IdsOfMembers(members), known)
    ensures StripMembers(members, known).1 == NodesOf(IdsOfMembers(members), known)
    decreases members
  {
    if members != [] {
      var m, rest := members[0], members[1..];
      StripTakesRaw(m.value, known);
      StripTakesRawMembers(rest, known);
      StripMemberTakesRaw(m, known);
      StripMembersStep(members, known);
      hide StripMember, Strip, StripMembers, Frame, FrameOfMember, FrameOfMembers, Ids, IdsOfMember, IdsOfMembers, RawAll, NodesOf;
      assert members == [m] + rest;
      MembersCons(m, rest);
      MembersCons(StripMember(m, known).0, StripMembers(rest, known).0);
      RawAllConcat(IdsOfMember(m), IdsOfMembers(rest), known);
      NodesOfConcat(IdsOfMember(m), IdsOfMembers(rest), known);
    }
  }

  // ---------- Round trip ----------

  /** No id of the value is the node's prefix followed by something. */
  predicate NotYetPrefixed(ids: seq<string>, node: string) {
    forall i :: 0 <= i < |ids| ==> !(HasPrefix(ids[i], node) && |ids[i]| > |node| + 1)
  }

  lemma MintThenSplit(node: string, id: string, known: set<string>)
    requires IsNodeName(node) && node in known && id != ""
    ensures SplitPrefixedId(Mint(node, id), known).1 == id <==> !(HasPrefix(id, node) && |id| > |node| + 1)
    ensures SplitPrefixedId(Mint(node, id), known).0 == if id == node + [SEP] then None else Some(node)
  {
    NodeNameHasNoSeparator(node);
    var minted := Mint(node, id);
    var rest := minted[|node| + 1..];
    assert minted == node + [SEP] + rest;
    CutUnique(node, rest);
    assert minted[|node|] == SEP;
    if HasPrefix(id, node) {
      assert id == minted;
      assert rest == "" <==> id == node + [SEP];
    } else {
      assert rest == id;
    }
  }

  /** Every resource id is a non-empty string. */
  lemma {:induction false} IdsNonEmpty(j: Json)
    ensures forall i :: 0 <= i < |Ids(j)| ==> Ids(j)[i] != ""
    decreases j
  {
    match j {
      case Arr(items) => IdsNonEmptyItems(items);
      case Obj(members) => IdsNonEmptyMembers(members);
      case _ =>
    }
  }

  lemma {:induction false} IdsNonEmptyItems(items: seq<Json>)
    ensures forall i :: 0 <= i < |IdsOfItems(items)| ==> IdsOfItems(items)[i] != ""
    decreases items
  {
    if items != [] {
      IdsNonEmpty(items[0]);
      IdsNonEmptyItems(items[1..]);
    }
  }

  lemma {:induction false} IdsNonEmptyMembers(members: seq<Member>)
    ensures forall i :: 0 <= i < |IdsOfMembers(members)| ==> IdsOfMembers(members)[i] != ""
    decreases members
  {
    if members != [] {
      IdsNonEmpty(members[0].value);
      IdsNonEmptyMembers(members[1..]);
    }
  }

  /** Stripping undoes reprefixing for a known node exactly when no id already carried the
      node's prefix in front of something. */
  lemma StripUndoesReprefix(j: Json, node: string, known: set<string>)
    requires IsNodeName(node) && node in known
    ensures Strip(Reprefix(j, node), known).0 == j <==> NotYetPrefixed(Ids(j), node)
  {
    var ids := Ids(j);
    var back := Strip(Reprefix(j, node), known).0;
    IdsNonEmpty(j);
    ReprefixMints(j, node);
    StripTakesRaw(Reprefix(j, node), known);
    assert Frame(back) == Frame(j) && |Ids(back)| == |ids|;
    forall i | 0 <= i < |ids|
      ensures Ids(back)[i] == ids[i] <==> !(HasPrefix(ids[i], node) && |ids[i]| > |node| + 1)
    {
      MintThenSplit(node, ids[i], known);
    }
    if NotYetPrefixed(ids, node) {
      Determined(back, j);
    }
  }

  /** Some id is more than the node's bare prefix. */
  predicate NamesResource(ids: seq<string>, node: string) {
    exists id :: id in ids && id != node + [SEP]
  }

  lemma {:induction false} PinnedNode(ids: seq<string>, node: string, known: set<string>)
    requires IsNodeName(node) && node in known && "" !in ids
    ensures Pinned(NodesOf(MintAll(ids, node), known)) == if NamesResource(ids, node) then Some(node) else None
  {
    if ids != [] {
      MintThenSplit(node, ids[0], known);
      assert MintAll(ids, node)[1..] == MintAll(ids[1..], node);
      PinnedNode(ids[1..], node, known);
      if ids[0] == node + [SEP] {
        assert forall id :: id in ids <==> id == ids[0] || id in ids[1..];
      } else {
        assert ids[0] in ids;
      }
    }
  }

  /** The node reported with the stripped body: the one that minted the ids, exactly when some
      id is more than the bare prefix. */
  lemma PinnedAfterReprefix(j: Json, node: string, known: set<string>)
    requires IsNodeName(node) && node in known
    ensures Pinned(Strip(Reprefix(j, node), known).1) == if NamesResource(Ids(j), node) then Some(node) else None
  {
    IdsNonEmpty(j);
    ReprefixMints(j, node);
    StripTakesRaw(Reprefix(j, node), known);
    PinnedNode(Ids(j), node, known);
  }

  /** Reprefixing twice is reprefixing once. */
  lemma ReprefixIdempotent(j: Json, node: string)
    ensures Reprefix(Reprefix(j, node), node) == Reprefix(j, node)
  {
    var once := Reprefix(j, node);
    ReprefixMints(j, node);
    ReprefixMints(once, node);
    assert MintAll(MintAll(Ids(j), node), node) == MintAll(Ids(j), node);
    Determined(Reprefix(once, node), once);
  }
}
