/** The path parser of `pathparser.c`: `drive ':' ( '/' entry )*`, where an entry is a directory name or
    `name '.' extension`. */
module PathParser {
  import opened PathLexer
  import Words

  // `pathnode_t`: eleven characters, a byte of padding, and the link to the next node.
  const NEXT: nat := 12
  const NODE_BYTES: nat := 16

  datatype Option<T> = None | Some(value: T)

  /** The parser's fields together with the position of its lexer. */
  datatype State = State(pos: nat, curr: Token, prev: Token, err: bool)

  /** What a path means: its drive (a letter or nothing) and the identifiers of its nodes, as C strings. */
  datatype Root = Root(drive: string, path: seq<string>)

  /** `Overrun`: an identifier would be copied past the end of its node. `NullPath`: a path without entries,
      whose first node is dereferenced all the same. */
  datatype Outcome = Parsed(root: Root, err: bool) | Overrun | NullPath

  ghost predicate Wf(t: string, st: State) {
    && st.pos <= |t| && st.curr.start <= |t| && st.curr == Lex(t, st.curr.start)
    && st.curr.start + st.curr.len == st.pos && st.curr.kind != Err
  }

  /** Where the next token that is not an error starts. */
  function Skip(t: string, pos: nat): (p: nat)
    requires pos <= |t|
    ensures pos <= p <= |t| && Lex(t, p).kind != Err
    decreases |t| - pos
  {
    if Lex(t, pos).kind == Err then Skip(t, pos + 1) else pos
  }

  /** `_path_parser_advance` */
  function Advance(t: string, st: State): State
    requires st.pos <= |t|
  {
    var p := Skip(t, st.pos);
    var k := Lex(t, p);
    State(p + k.len, k, st.curr, st.err || p != st.pos)
  }

  /** `_path_parser_eat` */
  function Eat(t: string, st: State, kind: Kind): State
    requires st.pos <= |t|
  {
    if st.curr.kind == kind then Advance(t, st) else st.(err := true)
  }

  function Min(a: nat, b: nat): nat {
    if a < b then a else b
  }

  /** `_path_parser_parse_filename`, after a name that is followed by a dot. */
  function FilenameState(t: string, st: State): State
    requires st.pos <= |t|
  {
    Eat(t, Eat(t, st, Dot), Identifier)
  }

  function FilenameText(name: string, ext: string): string {
    name[..Min(|name|, 8)] + "." + ext[..Min(|ext|, 3)]
  }

  function EntryState(t: string, st: State): State
    requires st.pos <= |t|
  {
    if st.curr.kind != Identifier then st
    else
      var st1 := Advance(t, st);
      if st1.curr.kind == Dot then FilenameState(t, st1) else st1
  }

  /** `_path_parser_parse_entry`: the text in a node whose link is null. The characters of a directory name that reach
      the link are overwritten with it. */
  function EntryText(t: string, st: State): Option<string>
    requires Wf(t, st)
  {
    if st.curr.kind != Identifier then Some("")
    else
      var st1 := Advance(t, st);
      var name := TokenText(t, st.curr);
      if |name| > NODE_BYTES then None
      else if st1.curr.kind == Dot then
        AdvanceWf(t, st);
        FilenamePrev(t, st1);
        Some(FilenameText(name, TokenText(t, FilenameState(t, st1).prev)))
      else Some(name[..Min(|name|, NEXT)])
  }

  lemma AdvanceWf(t: string, st: State)
    requires Wf(t, st)
    ensures Wf(t, Advance(t, st)) && st.curr.start <= Advance(t, st).curr.start
    ensures st.curr.kind != End ==> st.curr.start < Advance(t, st).curr.start
  {
  }

  /** The token copied as the extension: the identifier behind the dot, or the dot itself when there is none. */
  lemma FilenamePrev(t: string, st: State)
    requires Wf(t, st) && st.curr.kind == Dot
    ensures var prev := FilenameState(t, st).prev; prev.start + prev.len <= |t|
    ensures var st2 := Advance(t, st);
      FilenameState(t, st).prev == if st2.curr.kind == Identifier then st2.curr else st.curr
  {
    AdvanceWf(t, st);
  }

  lemma EatWf(t: string, st: State, kind: Kind)
    requires Wf(t, st)
    ensures Wf(t, Eat(t, st, kind)) && st.curr.start <= Eat(t, st, kind).curr.start
  {
    AdvanceWf(t, st);
  }

  lemma EntryWf(t: string, st: State)
    requires Wf(t, st)
    ensures Wf(t, EntryState(t, st)) && st.curr.start <= EntryState(t, st).curr.start
  {
    if st.curr.kind == Identifier {
      AdvanceWf(t, st);
      var st1 := Advance(t, st);
      EatWf(t, st1, Dot);
      EatWf(t, Eat(t, st1, Dot), Identifier);
    }
  }

  /** `_path_parser_parse_entries`: the nodes and the state behind them. */
  function Entries(t: string, st: State): (r: Option<(seq<string>, State)>)
    requires Wf(t, st)
    ensures r.Some? ==> Wf(t, r.value.1)
    decreases |t| - st.curr.start
  {
    if st.curr.kind != Slash then Some(([], st))
    else
      AdvanceWf(t, st);
      var st1 := Advance(t, st);
      EntryWf(t, st1);
      match EntryText(t, st1)
      case None => None
      case Some(name) =>
        match Entries(t, EntryState(t, st1))
        case None => None
        case Some(rest) => Some(([name] + rest.0, rest.1))
  }

  /** `_path_parser_parse_drive` */
  function DriveState(t: string, st: State): State
    requires st.pos <= |t|
  {
    if st.curr.kind == Letter then Eat(t, Advance(t, st), Colon) else st
  }

  function DriveText(t: string, st: State): string
    requires Wf(t, st)
  {
    if st.curr.kind == Letter then TokenText(t, st.curr) else ""
  }

  lemma DriveWf(t: string, st: State)
    requires Wf(t, st)
    ensures Wf(t, DriveState(t, st))
  {
    if st.curr.kind == Letter {
      AdvanceWf(t, st);
      EatWf(t, Advance(t, st), Colon);
    }
  }

  /** The first token, read before parsing starts; the fields keep what an earlier parse left in them. */
  function First(t: string, curr: Token, err: bool): (st: State)
    ensures Wf(t, st)
  {
    Advance(t, State(0, curr, curr, err))
  }

  /** The bytes of a pointer, lowest first. */
  function PtrBytes(p: nat): (s: string)
    ensures |s| == 4
  {
    [(p % 0x100) as char, (p / 0x100 % 0x100) as char, (p / 0x1_0000 % 0x100) as char, (p / 0x100_0000 % 0x100) as char]
  }

  /** The C string at the start of a buffer. */
  function CString(buf: string): string {
    if buf == "" || buf[0] == '\0' then "" else [buf[0]] + CString(buf[1..])
  }

  /** The identifier that is read from a node with text `w` and link `p`: a text that fills the padding has no
      terminator before the link. */
  function Shown(w: string, p: nat): string {
    if |w| == NEXT then w + CString(PtrBytes(p)) else w
  }

  /** The link of node `i` of `n`; `ptr` gives the addresses of the nodes. */
  function Link(ptr: nat -> nat, n: nat, i: nat): nat {
    if i + 1 < n then ptr(i + 1) else 0
  }

  function ShownAll(ws: seq<string>, ptr: nat -> nat): (r: seq<string>)
    ensures |r| == |ws| && forall i | 0 <= i < |ws| :: r[i] == Shown(ws[i], Link(ptr, |ws|, i))
  {
    seq(|ws|, i requires 0 <= i < |ws| => Shown(ws[i], Link(ptr, |ws|, i)))
  }

  /** `path_parser_parse`: a lone empty entry stands for the root directory. */
  function Parse(t: string, curr: Token, err: bool, ptr: nat -> nat): Outcome {
    var st := First(t, curr, err);
    DriveWf(t, st);
    match Entries(t, DriveState(t, st))
    case None => Overrun
    case Some(r) =>
      if r.0 == [] then NullPath
      else Parsed(Root(DriveText(t, st), if r.0 == [""] then ["/"] else ShownAll(r.0, ptr)), r.1.err)
  }

  // ----- the parser in memory -----------------------------------------------------------

  /** `memcpy` into a node. */
  function Blit(buf: string, at: nat, src: string): (r: string)
    requires at + |src| <= |buf|
    ensures |r| == |buf|
    ensures forall i | 0 <= i < |buf| :: r[i] == if at <= i < at + |src| then src[i - at] else buf[i]
  {
    buf[..at] + src + buf[at + |src|..]
  }

  function Zeros(): (s: string)
    ensures |s| == NODE_BYTES && forall i | 0 <= i < |s| :: s[i] == '\0'
  {
    seq(NODE_BYTES, _ => '\0')
  }

  /** A node with text `w` and link `p`. */
  ghost predicate Holds(buf: string, w: string, p: nat) {
    && |buf| == NODE_BYTES && |w| <= NEXT && '\0' !in w
    && (forall i | 0 <= i < |w| :: buf[i] == w[i]) && (|w| < NEXT ==> buf[|w|] == '\0')
    && buf[NEXT..] == PtrBytes(p)
  }

  lemma {:induction false} CStringIs(buf: string, s: string, rest: string)
    requires buf == s + rest && '\0' !in s
    ensures CString(buf) == s + CString(rest)
  {
    if s == "" {
      assert buf == rest;
    } else {
      assert s[0] in s && buf[0] == s[0];
      assert forall c | c in s[1..] :: c in s;
      assert buf[1..] == s[1..] + rest;
      CStringIs(buf[1..], s[1..], rest);
      assert [s[0]] + (s[1..] + CString(rest)) == s + CString(rest);
    }
  }

  /** What is read from a node. */
  lemma HoldsShown(buf: string, w: string, p: nat)
    requires Holds(buf, w, p)
    ensures CString(buf) == Shown(w, p)
  {
    var rest := buf[|w|..];
    assert buf == w + rest;
    CStringIs(buf, w, rest);
    if |w| < NEXT {
      assert rest[0] == '\0';
      assert w + "" == w;
    }
  }

  lemma NullBytes()
    ensures PtrBytes(0) == "\0\0\0\0" && CString(PtrBytes(0)) == ""
  {
  }

  /** `_path_parser_parse_dir` on a zeroed node. */
  lemma DirNode(name: string)
    requires |name| <= NODE_BYTES && '\0' !in name
    ensures Holds(Blit(Blit(Zeros(), 0, name), NEXT, PtrBytes(0)), name[..Min(|name|, NEXT)], 0)
  {
    var buf := Blit(Blit(Zeros(), 0, name), NEXT, PtrBytes(0));
    assert buf[NEXT..] == PtrBytes(0);
    assert forall c | c in name[..Min(|name|, NEXT)] :: c in name;
  }

  /** The copies of `_path_parser_parse_filename`: name, dot, extension and one byte more, terminator, link. */
  lemma FilenameNode(buf0: string, b: string, e: string, more: char)
    requires |buf0| == NODE_BYTES && |b| <= 8 && |e| <= 3 && '\0' !in b && '\0' !in e
    ensures var bytes := |b| + 1 + |e|;
      var buf := Blit(Blit(Blit(buf0, 0, b), |b|, "."), |b| + 1, e + [more])[bytes := '\0'];
      Holds(Blit(buf, NEXT, PtrBytes(0)), b + "." + e, 0)
  {
    var bytes := |b| + 1 + |e|;
    var buf1 := Blit(Blit(buf0, 0, b), |b|, ".");
    var buf2 := Blit(buf1, |b| + 1, e + [more])[bytes := '\0'];
    var buf := Blit(buf2, NEXT, PtrBytes(0));
    assert buf[NEXT..] == PtrBytes(0);
    assert forall i | 0 <= i < bytes :: buf2[i] == (b + "." + e)[i];
  }

  /** `prev->next = new_node` */
  lemma LinkNode(buf: string, w: string, p: nat, q: nat)
    requires Holds(buf, w, p)
    ensures Holds(Blit(buf, NEXT, PtrBytes(q)), w, q)
  {
    assert Blit(buf, NEXT, PtrBytes(q))[NEXT..] == PtrBytes(q);
  }

  /** The nodes of a path with the texts `ws`, linked in order. */
  ghost predicate Nodes(list: seq<string>, ws: seq<string>, ptr: nat -> nat) {
    |list| == |ws| && forall i | 0 <= i < |ws| :: Holds(list[i], ws[i], Link(ptr, |ws|, i))
  }

  /** What is read from all nodes. */
  function Names(list: seq<string>): seq<string> {
    seq(|list|, i requires 0 <= i < |list| => CString(list[i]))
  }

  lemma NodeSize(list: seq<string>, ws: seq<string>, ptr: nat -> nat, i: nat)
    requires Nodes(list, ws, ptr) && i < |list|
    ensures |list[i]| == NODE_BYTES
  {
  }

  lemma NodesShown(list: seq<string>, ws: seq<string>, ptr: nat -> nat)
    requires Nodes(list, ws, ptr)
    ensures Names(list) == ShownAll(ws, ptr)
  {
    forall i | 0 <= i < |ws|
      ensures Names(list)[i] == ShownAll(ws, ptr)[i]
    {
      HoldsShown(list[i], ws[i], Link(ptr, |ws|, i));
    }
  }

  /** A new node behind the last one, which is linked to it. */
  lemma NodesMore(list: seq<string>, ws: seq<string>, ptr: nat -> nat, node: string, w: string)
    requires Nodes(list, ws, ptr) && Holds(node, w, 0)
    ensures var n := |list|;
      var linked := if n == 0 then [] else list[n - 1 := Blit(list[n - 1], NEXT, PtrBytes(ptr(n)))];
      Nodes(linked + [node], ws + [w], ptr)
  {
    var n := |list|;
    if n > 0 { LinkNode(list[n - 1], ws[n - 1], 0, ptr(n)); }
    hide Holds;
  }

  function Prepended(names: seq<string>, r: Option<(seq<string>, State)>): Option<(seq<string>, State)> {
    if r.None? then None else Some((names + r.value.0, r.value.1))
  }

  lemma PrependNothing(r: Option<(seq<string>, State)>)
    ensures Prepended([], r) == r
  {
    if r.Some? {
      assert [] + r.value.0 == r.value.0;
    }
  }

  lemma EntriesDone(t: string, st: State, names: seq<string>)
    requires Wf(t, st) && st.curr.kind != Slash
    ensures Prepended(names, Entries(t, st)) == Some((names, st))
  {
    assert names + [] == names;
  }

  lemma EntriesNone(t: string, st: State, names: seq<string>)
    requires Wf(t, st) && st.curr.kind == Slash && Wf(t, Advance(t, st)) && EntryText(t, Advance(t, st)).None?
    ensures Prepended(names, Entries(t, st)).None?
  {
  }

  lemma EntriesUnfold(t: string, st: State)
    requires Wf(t, st) && st.curr.kind == Slash
    requires Wf(t, Advance(t, st)) && Wf(t, EntryState(t, Advance(t, st))) && EntryText(t, Advance(t, st)).Some?
    ensures var st1 := Advance(t, st);
      Entries(t, st) == Prepended([EntryText(t, st1).value], Entries(t, EntryState(t, st1)))
  {
    hide Lex, Skip, Advance, EntryText, EntryState;
  }

  /** One turn of the loop over the entries. */
  lemma EntriesStep(t: string, st: State, names: seq<string>)
    requires Wf(t, st) && st.curr.kind == Slash
    requires Wf(t, Advance(t, st)) && Wf(t, EntryState(t, Advance(t, st))) && EntryText(t, Advance(t, st)).Some?
    ensures var st1 := Advance(t, st);
      Prepended(names, Entries(t, st)) == Prepended(names + [EntryText(t, st1).value], Entries(t, EntryState(t, st1)))
  {
    hide Lex, Skip, Advance, EntryText, EntryState;
    EntriesUnfold(t, st);
    var st1 := Advance(t, st);
    var rest := Entries(t, EntryState(t, st1));
    hide Entries;
    if rest.Some? {
      var name := EntryText(t, st1).value;
      assert names + ([name] + rest.value.0) == names + [name] + rest.value.0;
    }
  }

  class Parser {
    var curr: Token
    var prev: Token
    var hasError: bool

    ghost function View(lexer: Lexer): State
      reads this, lexer
    {
      State(lexer.curr, curr, prev, hasError)
    }

    constructor ()
    {
      curr, prev, hasError := Token(Identifier, 0, 0), Token(Identifier, 0, 0), false;
    }

    /** `_path_parser_advance`: error tokens are reported and skipped. */
    method AdvanceToken(lexer: Lexer)
      requires lexer.Valid()
      modifies this, lexer
      ensures lexer.Valid() && View(lexer) == Advance(lexer.text, old(View(lexer)))
    {
      prev := curr;
      ghost var st := old(View(lexer));
      curr := lexer.LexToken();
      while curr.kind == Err
        invariant lexer.Valid() && prev == st.curr && curr.start <= |lexer.text|
        invariant curr == Lex(lexer.text, curr.start) && lexer.curr == curr.start + curr.len
        invariant st.pos <= curr.start && Skip(lexer.text, curr.start) == Skip(lexer.text, st.pos)
        invariant hasError == (st.err || curr.start != st.pos)
        decreases |lexer.text| - curr.start, if curr.kind == Err then 1 else 0
      {
        hasError := true;
        curr := lexer.LexToken();
      }
    }

    /** `_path_parser_eat` */
    method EatToken(lexer: Lexer, kind: Kind)
      requires lexer.Valid()
      modifies this, lexer
      ensures lexer.Valid() && View(lexer) == Eat(lexer.text, old(View(lexer)), kind)
    {
      if curr.kind == kind {
        AdvanceToken(lexer);
      } else {
        hasError := true;
      }
    }

    /** `_path_parser_parse_filename` */
    method ParseFilename(lexer: Lexer, buf0: string) returns (buf: string)
      requires lexer.Valid() && Wf(lexer.text, View(lexer)) && curr.kind == Dot && |buf0| == NODE_BYTES
      requires prev.start + prev.len <= |lexer.text|
      modifies this, lexer
      ensures lexer.Valid() && View(lexer) == FilenameState(lexer.text, old(View(lexer)))
      ensures prev.start + prev.len <= |lexer.text|
      ensures Holds(buf, FilenameText(old(TokenText(lexer.text, prev)), TokenText(lexer.text, prev)), 0)
    {
      ghost var t, st := lexer.text, View(lexer);
      FilenamePrev(t, st);
      var name := TokenText(lexer.text, prev);
      var b := name[..Min(|name|, 8)];
      EatToken(lexer, Dot);
      EatToken(lexer, Identifier);
      var ext := TokenText(lexer.text, prev);
      var e := ext[..Min(|ext|, 3)];
      var more := Peek(lexer.text, prev.start + |e|);
      FilenameNode(buf0, b, e, more);
      buf := Blit(buf0, 0, b);
      buf := Blit(buf, |b|, ".");
      buf := Blit(buf, |b| + 1, e + [more]);
      buf := buf[|b| + 1 + |e| := '\0'];
      buf := Blit(buf, NEXT, PtrBytes(0));
    }

    /** `_path_parser_parse_entry` on a zeroed node: `None` when a name would be copied past the end of the node. */
    method ParseEntry(lexer: Lexer) returns (buf: Option<string>)
      requires lexer.Valid() && Wf(lexer.text, View(lexer))
      modifies this, lexer
      ensures lexer.Valid()
      ensures buf.None? <==> EntryText(lexer.text, old(View(lexer))).None?
      ensures buf.Some? ==>
        && View(lexer) == EntryState(lexer.text, old(View(lexer)))
        && Holds(buf.value, EntryText(lexer.text, old(View(lexer))).value, 0)
    {
      ghost var t, st := lexer.text, View(lexer);
      var node := Zeros();
      if curr.kind != Identifier {
        NullBytes();
        assert node[NEXT..] == PtrBytes(0);
        return Some(node);
      }
      AdvanceWf(t, st);
      AdvanceToken(lexer);
      var name := TokenText(lexer.text, prev);
      if |name| > NODE_BYTES {
        return None;
      }
      DirNode(name);
      node := Blit(node, 0, name);
      node := Blit(node, NEXT, PtrBytes(0));
      if curr.kind == Dot {
        node := ParseFilename(lexer, node);
      }
      buf := Some(node);
    }

    /** `_path_parser_parse_entries`: the nodes, in the order of their links; `ptr` gives the addresses that `kzalloc`
        returns for them. */
    method ParseEntries(lexer: Lexer, ptr: nat -> nat) returns (nodes: Option<seq<string>>, ghost ws: seq<string>)
      requires lexer.Valid() && Wf(lexer.text, View(lexer))
      modifies this, lexer
      ensures lexer.Valid()
      ensures nodes.None? <==> Entries(lexer.text, old(View(lexer))).None?
      ensures nodes.Some? ==>
        && Nodes(nodes.value, ws, ptr) && Entries(lexer.text, old(View(lexer))) == Some((ws, View(lexer)))
    {
      hide Lex, Skip, Advance, EntryState, EntryText, Entries, CString, Prepended, Holds;
      ghost var t, st0 := lexer.text, View(lexer);
      var list: seq<string> := [];
      ws := [];
      PrependNothing(Entries(t, st0));
      while curr.kind == Slash
        invariant lexer.Valid() && Wf(t, View(lexer)) && Nodes(list, ws, ptr)
        invariant Entries(t, st0) == Prepended(ws, Entries(t, View(lexer)))
        decreases |t| - curr.start
      {
        ghost var st := View(lexer);
        AdvanceWf(t, st);
        AdvanceToken(lexer);
        ghost var st1 := View(lexer);
        EntryWf(t, st1);
        var n := |list|;
        ghost var list0 := list;
        if n != 0 {
          NodeSize(list, ws, ptr, n - 1);
          list := list[n - 1 := Blit(list[n - 1], NEXT, PtrBytes(ptr(n)))];
        }
        var node := ParseEntry(lexer);
        if node.None? {
          EntriesNone(t, st, ws);
          return None, ws;
        }
        NodesMore(list0, ws, ptr, node.value, EntryText(t, st1).value);
        EntriesStep(t, st, ws);
        ws := ws + [EntryText(t, st1).value];
        list := list + [node.value];
      }
      EntriesDone(t, View(lexer), ws);
      return Some(list), ws;
    }

    /** `_path_parser_parse_drive` */
    method ParseDrive(lexer: Lexer) returns (drive: string)
      requires lexer.Valid() && Wf(lexer.text, View(lexer))
      modifies this, lexer
      ensures lexer.Valid() && View(lexer) == DriveState(lexer.text, old(View(lexer)))
      ensures |drive| == 2 && CString(drive) == DriveText(lexer.text, old(View(lexer)))
    {
      drive := "\0\0";
      if curr.kind == Letter {
        AdvanceToken(lexer);
        drive := drive[0 := lexer.text[prev.start]];
        drive := drive[1 := '\0'];
        assert TokenText(lexer.text, prev) == [drive[0]] && drive == [drive[0]] + "\0";
        CStringIs(drive, [drive[0]], "\0");
        EatToken(lexer, Colon);
      }
    }

    /** The end of `_path_parser_parse_path`: a first node without a name and without a successor becomes the root
        directory. */
    method NameRoot(nodes: seq<string>, ghost ws: seq<string>, ghost ptr: nat -> nat) returns (list: seq<string>)
      requires Nodes(nodes, ws, ptr) && nodes != [] && HeapPointers(ptr)
      ensures Names(list) == if ws == [""] then ["/"] else ShownAll(ws, ptr)
    {
      NodesShown(nodes, ws, ptr);
      FirstNode(nodes, ws, ptr);
      list := nodes;
      if nodes[0][0] == '\0' && nodes[0][NEXT..] == PtrBytes(0) {
        var root := Blit(nodes[0], 0, "/\0\0\0\0\0\0\0\0\0\0");
        assert root == "/" + root[1..] && root[1] == '\0';
        CStringIs(root, "/", root[1..]);
        list := nodes[0 := root];
        assert root[1..][0] == '\0' && CString(root) == "/";
        assert |list| == 1 && Names(list)[0] == "/";
      }
    }

    /** `path_parser_parse` with `_path_parser_parse_path`: `NullPath` is the dereference of a missing first node. */
    method ParsePath(path: string, ptr: nat -> nat) returns (r: Outcome)
      requires '\0' !in path && HeapPointers(ptr)
      modifies this
      ensures r == Parse(path, old(curr), old(hasError), ptr)
      ensures r.Parsed? ==> r.err == hasError
    {
      hide Holds, CString, Shown, Entries;
      var lexer := new Lexer(path);
      AdvanceToken(lexer);
      ghost var st := View(lexer);
      assert st == First(path, old(curr), old(hasError));
      DriveWf(path, st);
      var drive := ParseDrive(lexer);
      var nodes; ghost var ws;
      nodes, ws := ParseEntries(lexer, ptr);
      if nodes.None? {
        return Overrun;
      }
      if |nodes.value| == 0 {
        return NullPath;
      }
      var list := NameRoot(nodes.value, ws, ptr);
      return Parsed(Root(CString(drive), Names(list)), hasError);
    }
  }

  /** The addresses that the kernel heap hands out: 20 bytes behind a multiple of 4 KiB. */
  ghost predicate HeapPointers(ptr: nat -> nat) {
    forall i: nat :: ptr(i) % 0x1000 == 20
  }

  /** A heap pointer shows as text that no letter starts. */
  lemma PointerText(p: nat)
    requires p % 0x1000 == 20
    ensures PtrBytes(p)[0] == 20 as char && PtrBytes(p) != PtrBytes(0)
    ensures CString(PtrBytes(p)) != "" && CString(PtrBytes(p))[0] == 20 as char
  {
    Words.Split(20, p / 0x1000 * 16, 0x100);
    assert p == 20 + 0x100 * (p / 0x1000 * 16);
  }

  /** The test for the root directory. */
  lemma FirstNode(nodes: seq<string>, ws: seq<string>, ptr: nat -> nat)
    requires Nodes(nodes, ws, ptr) && nodes != [] && HeapPointers(ptr)
    ensures |nodes[0]| == NODE_BYTES
    ensures nodes[0][0] == '\0' && nodes[0][NEXT..] == PtrBytes(0) <==> ws == [""]
  {
    var w := ws[0];
    assert Holds(nodes[0], w, Link(ptr, |ws|, 0));
    if |ws| > 1 { PointerText(ptr(1)); }
    if w != "" { assert w[0] in w; }
  }

  // ----- printing and parsing back -------------------------------------------------------

  datatype Entry = Dir(name: string) | File(name: string, ext: string)

  predicate Letters(s: string, most: nat) {
    1 <= |s| <= most && forall i | 0 <= i < |s| :: IsAlpha(s[i])
  }

  predicate Printable(e: Entry) {
    match e
    case Dir(name) => Letters(name, |name|)
    case File(name, ext) => Letters(name, 8) && Letters(ext, 3)
  }

  /** The copy of a directory name stays inside its node. */
  predicate Fits(e: Entry) {
    e.Dir? ==> |e.name| <= NODE_BYTES
  }

  predicate AllFit(es: seq<Entry>) {
    forall i | 0 <= i < |es| :: Fits(es[i])
  }

  /** What parsing a printed entry leaves in its node. */
  function NodeText(e: Entry): Option<string> {
    if !Fits(e) then None else Some(EntryName(e)[..Min(|EntryName(e)|, NEXT)])
  }

  function NodeTexts(es: seq<Entry>): (ws: seq<string>)
    requires AllFit(es)
    ensures |ws| == |es| && forall i | 0 <= i < |es| :: Some(ws[i]) == NodeText(es[i])
  {
    seq(|es|, i requires 0 <= i < |es| => NodeText(es[i]).value)
  }

  /** Entry `i` is read back: up to eleven characters always, twelve when nothing follows. */
  predicate Kept(es: seq<Entry>, i: nat)
    requires i < |es|
  {
    var n := |EntryName(es[i])|;
    n < NEXT || (n == NEXT && i + 1 == |es|)
  }

  function EntryName(e: Entry): string {
    match e
    case Dir(name) => name
    case File(name, ext) => name + ("." + ext)
  }

  function EntryNames(es: seq<Entry>): seq<string> {
    seq(|es|, i requires 0 <= i < |es| => EntryName(es[i]))
  }

  function PrintEntries(es: seq<Entry>): string {
    if es == [] then "" else "/" + (EntryName(es[0]) + PrintEntries(es[1..]))
  }

  /** A drive letter, or no drive at all. */
  predicate IsDrive(drive: string) {
    drive == "" || (|drive| == 1 && IsAlpha(drive[0]))
  }

  function PrintDrive(drive: string): string {
    if drive == "" then "" else drive + ":"
  }

  function Print(drive: string, es: seq<Entry>): string {
    PrintDrive(drive) + PrintEntries(es)
  }

  lemma {:induction false} AlphaRun(t: string, i: nat, e: nat)
    requires i <= e <= |t| && (forall j | i <= j < e :: IsAlpha(t[j])) && !IsAlpha(Peek(t, e))
    ensures AlphaEnd(t, i) == e
    decreases e - i
  {
    if i < e {
      AlphaRun(t, i + 1, e);
    }
  }

  /** A name that ends before anything but a letter or a colon is one identifier. */
  lemma LexName(t: string, p: nat, name: string, most: nat)
    requires Letters(name, most) && p <= |t| && name <= t[p..]
    requires !IsAlpha(Peek(t, p + |name|)) && Peek(t, p + |name|) != ':'
    ensures Lex(t, p) == Token(Identifier, p, |name|) && TokenText(t, Lex(t, p)) == name
  {
    assert forall j | p <= j < p + |name| :: t[j] == t[p..][j - p];
    assert forall j | p <= j < p + |name| :: t[j] == name[j - p];
    AlphaRun(t, p + 1, p + |name|);
  }

  lemma AdvanceTo(t: string, st: State)
    requires st.pos <= |t| && Lex(t, st.pos).kind != Err
    ensures Advance(t, st) == State(st.pos + Lex(t, st.pos).len, Lex(t, st.pos), st.curr, st.err)
  {
  }

  ghost predicate Stops(t: string, p: nat) {
    && p <= |t| && Lex(t, p).kind != Err
    && !IsAlpha(Peek(t, p)) && Peek(t, p) != ':' && Peek(t, p) != '.'
  }

  /** What follows an entry is a slash or the end of the text. */
  lemma RestStops(t: string, p: nat, es: seq<Entry>)
    requires p <= |t| && t[p..] == PrintEntries(es)
    ensures Stops(t, p) && Lex(t, p).kind == if es == [] then End else Slash
  {
    if es != [] {
      FirstOf(t, p, "/", EntryName(es[0]) + PrintEntries(es[1..]));
    }
  }

  lemma FirstOf(t: string, p: nat, a: string, b: string)
    requires p <= |t| && t[p..] == a + b && a != ""
    ensures p < |t| && t[p] == a[0]
  {
    assert t[p] == t[p..][0] == (a + b)[0];
  }

  lemma Behind(t: string, p: nat, a: string, b: string)
    requires p <= |t| && t[p..] == a + b
    ensures p + |a| <= |t| && t[p + |a|..] == b && a <= t[p..]
  {
    assert t[p + |a|..] == t[p..][|a|..] == b;
  }

  lemma Nested(a: string, b: string, c: string, d: string)
    ensures a + (b + c) + d == a + (b + (c + d))
  {
  }

  ghost predicate ReadsBack(t: string, st: State, e: Entry, end: nat) {
    && Wf(t, st) && EntryText(t, st) == NodeText(e)
    && EntryState(t, st).curr.start == end && EntryState(t, st).err == st.err
  }

  lemma DirReadsBack(t: string, st: State, name: string, rest: string)
    requires Wf(t, st) && t[st.curr.start..] == name + rest && Letters(name, |name|) && Stops(t, st.curr.start + |name|)
    ensures ReadsBack(t, st, Dir(name), st.curr.start + |name|)
  {
    var p := st.curr.start;
    Behind(t, p, name, rest);
    LexName(t, p, name, |name|);
    AdvanceTo(t, st);
  }

  ghost predicate NameAt(t: string, p: nat, name: string) {
    p <= |t| && Lex(t, p) == Token(Identifier, p, |name|) && TokenText(t, Lex(t, p)) == name
  }

  ghost predicate DotAt(t: string, p: nat) {
    p <= |t| && Lex(t, p) == Token(Dot, p, 1)
  }

  /** The tokens of a printed file name. */
  lemma FileTokens(t: string, p: nat, name: string, ext: string, rest: string)
    requires p <= |t| && Letters(name, 8) && Letters(ext, 3) && t[p..] == name + ("." + (ext + rest))
    requires Stops(t, p + |name| + 1 + |ext|)
    ensures NameAt(t, p, name) && DotAt(t, p + |name|) && NameAt(t, p + |name| + 1, ext)
  {
    var d := p + |name|;
    Behind(t, p, name, "." + (ext + rest));
    FirstOf(t, d, ".", ext + rest);
    LexName(t, p, name, 8);
    Behind(t, d, ".", ext + rest);
    Behind(t, d + 1, ext, rest);
    LexName(t, d + 1, ext, 3);
  }

  lemma FilenameReadsBack(t: string, st: State, name: string, ext: string)
    requires Wf(t, st) && NameAt(t, st.curr.start, name) && DotAt(t, st.pos) && NameAt(t, st.pos + 1, ext)
    requires Stops(t, st.pos + 1 + |ext|) && Printable(File(name, ext))
    ensures ReadsBack(t, st, File(name, ext), st.pos + 1 + |ext|)
  {
    hide Lex, Skip;
    AdvanceTo(t, st);
    var st1 := Advance(t, st);
    AdvanceTo(t, st1);
    var st2 := Advance(t, st1);
    AdvanceTo(t, st2);
    FilenamePrev(t, st1);
    FilenameWhole(name, ext);
  }

  lemma FilenameWhole(name: string, ext: string)
    requires Printable(File(name, ext))
    ensures Some(FilenameText(name, ext)) == NodeText(File(name, ext))
  {
    assert name[..|name|] == name && ext[..|ext|] == ext;
    var whole := name + ("." + ext);
    assert name + "." + ext == whole == whole[..|whole|];
  }

  lemma EntryReadsBack(t: string, st: State, e: Entry, rest: string)
    requires Wf(t, st) && t[st.curr.start..] == EntryName(e) + rest && Printable(e)
    requires Stops(t, st.curr.start + |EntryName(e)|)
    ensures ReadsBack(t, st, e, st.curr.start + |EntryName(e)|)
  {
    hide Lex, ReadsBack, Stops, NodeText;
    if e.Dir? {
      DirReadsBack(t, st, e.name, rest);
    } else {
      Nested(e.name, ".", e.ext, rest);
      FileTokens(t, st.curr.start, e.name, e.ext, rest);
      FilenameReadsBack(t, st, e.name, e.ext);
      assert EntryName(e) == e.name + ("." + e.ext);
      assert st.curr.start + |EntryName(e)| == st.pos + 1 + |e.ext|;
    }
  }

  lemma EntryStarts(t: string, p: nat, e: Entry, rest: string)
    requires p <= |t| && t[p..] == EntryName(e) + rest && Printable(e)
    ensures Lex(t, p).kind != Err
  {
    FirstOf(t, p, EntryName(e), rest);
    assert t[p] == e.name[0];
  }

  /** The text behind a slash: the first entry, and behind that the rest. */
  lemma SlashThenEntry(t: string, p: nat, e: Entry, rest: string)
    requires p <= |t| && t[p..] == "/" + (EntryName(e) + rest) && Printable(e)
    ensures p < |t| && Lex(t, p) == Token(Slash, p, 1) && Lex(t, p + 1).kind != Err
    ensures t[p + 1..] == EntryName(e) + rest
    ensures p + 1 + |EntryName(e)| <= |t| && t[p + 1 + |EntryName(e)|..] == rest
  {
    FirstOf(t, p, "/", EntryName(e) + rest);
    Behind(t, p, "/", EntryName(e) + rest);
    Behind(t, p + 1, EntryName(e), rest);
    EntryStarts(t, p + 1, e, rest);
  }

  lemma SlashReadsBack(t: string, st: State, e: Entry, rest: string)
    requires Wf(t, st) && Printable(e) && st.curr == Token(Slash, st.curr.start, 1) && Lex(t, st.pos).kind != Err
    requires t[st.pos..] == EntryName(e) + rest && Stops(t, st.pos + |EntryName(e)|)
    ensures var st1 := Advance(t, st);
      && st1.err == st.err && ReadsBack(t, st1, e, st.pos + |EntryName(e)|)
  {
    hide Lex, Skip, ReadsBack, EntryName, Printable, Stops, NodeText;
    AdvanceTo(t, st);
    AdvanceWf(t, st);
    EntryReadsBack(t, Advance(t, st), e, rest);
  }

  /** One printed entry is read back, and the parser stands on what is printed behind it. */
  lemma EntryStep(t: string, st: State, e: Entry, text: string, rest: string)
    requires Wf(t, st) && Printable(e) && t[st.curr.start..] == text == "/" + (EntryName(e) + rest)
    requires var n := st.curr.start + 1 + |EntryName(e)|; n <= |t| && t[n..] == rest ==> Stops(t, n)
    ensures var st1 := Advance(t, st);
      && st.curr.kind == Slash && Wf(t, st1) && EntryText(t, st1) == NodeText(e)
      && Wf(t, EntryState(t, st1)) && EntryState(t, st1).err == st.err
      && t[EntryState(t, st1).curr.start..] == rest
  {
    hide Lex, Skip, EntryText, EntryState, EntryName, Printable, Stops, Advance, NodeText;
    SlashThenEntry(t, st.curr.start, e, rest);
    SlashReadsBack(t, st, e, rest);
    EntryWf(t, Advance(t, st));
  }

  lemma PrintedRest(t: string, p: nat, es: seq<Entry>)
    requires es != []
    ensures PrintEntries(es) == "/" + (EntryName(es[0]) + PrintEntries(es[1..]))
    ensures var n := p + 1 + |EntryName(es[0])|; n <= |t| && t[n..] == PrintEntries(es[1..]) ==> Stops(t, n)
  {
    var n := p + 1 + |EntryName(es[0])|;
    if n <= |t| && t[n..] == PrintEntries(es[1..]) {
      RestStops(t, n, es[1..]);
    }
  }

  predicate AllPrintable(es: seq<Entry>) {
    forall i | 0 <= i < |es| :: Printable(es[i])
  }

  lemma TextsStep(es: seq<Entry>)
    requires es != [] && AllFit(es)
    ensures AllFit(es[1..]) && NodeText(es[0]).Some? && NodeTexts(es) == [NodeText(es[0]).value] + NodeTexts(es[1..])
  {
    hide NodeText, Fits, AllFit;
    FitStep(es);
    TextIff(es[0]);
    var ws, rest := NodeTexts(es), NodeTexts(es[1..]);
    forall i: nat | i < |rest|
      ensures ws[i + 1] == rest[i]
    {
      assert Some(ws[i + 1]) == NodeText(es[i + 1]) == NodeText(es[1..][i]) == Some(rest[i]);
    }
    assert Some(ws[0]) == NodeText(es[0]);
    assert ws == [ws[0]] + rest;
  }

  lemma FitStep(es: seq<Entry>)
    requires es != []
    ensures AllFit(es) <==> Fits(es[0]) && AllFit(es[1..])
  {
    assert forall i | 0 < i < |es| :: es[i] == es[1..][i - 1];
  }

  lemma NoneReadBack(t: string, st: State)
    requires Wf(t, st) && t[st.curr.start..] == PrintEntries([])
    ensures AllFit([]) && Entries(t, st) == Some(([], st)) && NodeTexts([]) == []
  {
    RestStops(t, st.curr.start, []);
  }

  /** From a slash on, the parser takes in every printed entry and reports nothing, unless one does not fit its node. */
  lemma {:induction false} EntriesReadBack(t: string, st: State, es: seq<Entry>)
    requires Wf(t, st) && t[st.curr.start..] == PrintEntries(es) && AllPrintable(es)
    ensures var r := Entries(t, st);
      && (r.Some? <==> AllFit(es))
      && (r.Some? ==> r.value.0 == NodeTexts(es) && r.value.1.err == st.err)
    decreases |es|
  {
    hide Lex, Skip, EntryText, EntryState, EntryName, NodeTexts, Printable, PrintEntries, Advance, Entries, Stops;
    hide AllFit, Fits, NodeText;
    if es == [] {
      NoneReadBack(t, st);
    } else {
      PrintedRest(t, st.curr.start, es);
      EntryStep(t, st, es[0], PrintEntries(es), PrintEntries(es[1..]));
      FitStep(es);
      TextIff(es[0]);
      if Fits(es[0]) {
        EntriesReadBack(t, EntryState(t, Advance(t, st)), es[1..]);
        EntriesUnfold(t, st);
        if AllFit(es) { TextsStep(es); }
      } else {
        EntriesNone(t, st, []);
      }
    }
  }

  lemma TextIff(e: Entry)
    ensures NodeText(e).Some? <==> Fits(e)
  {
  }

  lemma DriveReadsBack(t: string, drive: string, curr: Token, err: bool)
    requires IsDrive(drive) && PrintDrive(drive) <= t && Stops(t, |PrintDrive(drive)|)
    ensures var st := First(t, curr, err);
      && DriveText(t, st) == drive
      && DriveState(t, st).curr.start == |PrintDrive(drive)| && DriveState(t, st).err == err
  {
    if drive != "" { assert t[0] == PrintDrive(drive)[0] == drive[0] && t[1] == PrintDrive(drive)[1] == ':'; }
    AdvanceTo(t, State(0, curr, curr, err));
    var st := First(t, curr, err);
    if drive != "" {
      AdvanceTo(t, st);
      AdvanceTo(t, Advance(t, st));
    }
  }

  /** What is read from the node of a printed entry is its name exactly when the entry is kept. */
  lemma ShownName(es: seq<Entry>, ptr: nat -> nat, i: nat)
    requires AllFit(es) && i < |es| && HeapPointers(ptr)
    requires forall k | 0 <= k < |EntryName(es[i])| :: EntryName(es[i])[k] != 20 as char
    ensures Shown(NodeTexts(es)[i], Link(ptr, |es|, i)) == EntryName(es[i]) <==> Kept(es, i)
  {
    var name, p := EntryName(es[i]), Link(ptr, |es|, i);
    var w := NodeTexts(es)[i];
    assert Some(w) == NodeText(es[i]);
    NullBytes();
    if |name| < NEXT {
      assert w == name;
    } else if i + 1 < |es| {
      PointerText(p);
      assert Shown(w, p)[NEXT] == 20 as char;
    } else {
      assert Shown(w, p) == w;
    }
  }

  lemma PlainName(e: Entry)
    requires Printable(e)
    ensures EntryName(e) != "" && forall k | 0 <= k < |EntryName(e)| :: EntryName(e)[k] != 20 as char
  {
  }

  /** Round trip: parsing a printed path reports nothing, gives back its drive, and gives back each entry exactly when
      its name has at most eleven characters, or twelve and nothing behind it. */
  lemma PrintThenParse(drive: string, es: seq<Entry>, curr: Token, err: bool, ptr: nat -> nat)
    requires IsDrive(drive) && es != [] && AllPrintable(es) && HeapPointers(ptr)
    ensures var r := Parse(Print(drive, es), curr, err, ptr);
      && (r == Overrun <==> !AllFit(es))
      && (AllFit(es) ==>
            && r.Parsed? && r.err == err && r.root.drive == drive && |r.root.path| == |es|
            && forall i: nat | i < |es| :: (r.root.path[i] == EntryName(es[i]) <==> Kept(es, i)))
  {
    hide Lex, Skip, PrintEntries, Entries, EntryName, Advance, Stops, DriveState, DriveText, Shown, Kept, PrintDrive;
    var t := Print(drive, es);
    PrintedPath(drive, es);
    DriveReadsBack(t, drive, curr, err);
    var st := First(t, curr, err);
    DriveWf(t, st);
    EntriesReadBack(t, DriveState(t, st), es);
    if AllFit(es) {
      forall i: nat | i < |es|
        ensures Shown(NodeTexts(es)[i], Link(ptr, |es|, i)) == EntryName(es[i]) <==> Kept(es, i)
      {
        PlainName(es[i]);
        ShownName(es, ptr, i);
      }
      FirstText(es);
    }
  }

  lemma PrintedPath(drive: string, es: seq<Entry>)
    ensures var t, n := Print(drive, es), |PrintDrive(drive)|;
      PrintDrive(drive) <= t && t[n..] == PrintEntries(es) && Stops(t, n)
  {
    hide PrintDrive;
    var t, n := Print(drive, es), |PrintDrive(drive)|;
    assert t[n..] == PrintEntries(es);
    RestStops(t, n, es);
  }

  lemma FirstText(es: seq<Entry>)
    requires es != [] && AllFit(es) && AllPrintable(es)
    ensures NodeTexts(es)[0] != ""
  {
    PlainName(es[0]);
    assert Some(NodeTexts(es)[0]) == NodeText(es[0]);
  }

  /** In particular, entries of at most eleven characters all come back. */
  lemma ShortNamesComeBack(drive: string, es: seq<Entry>, curr: Token, err: bool, ptr: nat -> nat)
    requires IsDrive(drive) && es != [] && AllPrintable(es) && HeapPointers(ptr)
    requires forall i: nat | i < |es| :: |EntryName(es[i])| < NEXT
    ensures Parse(Print(drive, es), curr, err, ptr) == Parsed(Root(drive, EntryNames(es)), err)
  {
    hide Print, Parse, Printable;
    assert forall i | 0 <= i < |es| :: Fits(es[i]) by {
      forall i | 0 <= i < |es|
        ensures Fits(es[i])
      {
        assert |EntryName(es[i])| < NEXT;
      }
    }
    PrintThenParse(drive, es, curr, err, ptr);
    var r := Parse(Print(drive, es), curr, err, ptr);
    assert forall i: nat | i < |es| :: Kept(es, i);
    assert r.root.path == EntryNames(es);
  }

  /** A lone slash, behind a drive or not, names the root directory. */
  lemma LoneSlash(drive: string, curr: Token, err: bool, ptr: nat -> nat)
    requires IsDrive(drive)
    ensures Parse(PrintDrive(drive) + "/", curr, err, ptr) == Parsed(Root(drive, ["/"]), err)
  {
    hide ShownAll, DriveText, DriveState, PrintDrive;
    var t := PrintDrive(drive) + "/";
    assert PrintDrive(drive) <= t && t[|PrintDrive(drive)|] == '/';
    DriveReadsBack(t, drive, curr, err);
    var st := First(t, curr, err);
    DriveWf(t, st);
    SlashAlone(t, DriveState(t, st));
  }

  lemma SlashAlone(t: string, st: State)
    requires Wf(t, st) && |t| == st.curr.start + 1 && t[st.curr.start] == '/'
    ensures var r := Entries(t, st); r.Some? && r.value.0 == [""] && r.value.1.err == st.err
  {
    AdvanceTo(t, st);
    var st1 := Advance(t, st);
    assert st1.curr == Token(End, |t|, 0) && Wf(t, st1);
    assert EntryText(t, st1) == Some("") && EntryState(t, st1) == st1;
    assert Entries(t, st1) == Some(([], st1));
    assert [""] + [] == [""];
  }

  // ----- which paths are reported --------------------------------------------------------

  /** A character that no token contains. */
  predicate NoToken(c: char) {
    !IsAlpha(c) && c != '/' && c != ':' && c != '.'
  }

  ghost predicate Foreign(t: string, from: nat, to: nat) {
    exists i: nat :: from <= i < to && i < |t| && NoToken(t[i])
  }

  /** A dot behind which no identifier comes, whatever else is skipped. */
  predicate Bare(t: string, i: nat) {
    i < |t| && t[i] == '.' && Lex(t, Skip(t, i + 1)).kind != Identifier
  }

  ghost predicate SomeBare(t: string, from: nat, to: nat) {
    exists i: nat :: from <= i < to && Bare(t, i)
  }

  /** From `st` to `st'` the parser reports an error exactly when it passes a character of no token, or a dot that is
      not followed by an extension. */
  ghost predicate Reports(t: string, st: State, st': State) {
    && st.pos <= st'.pos && st.curr.start <= st'.curr.start
    && (st'.err <==> st.err || Foreign(t, st.pos, st'.pos) || SomeBare(t, st.curr.start, st'.curr.start))
  }

  lemma ReportsMore(t: string, a: State, b: State, c: State)
    requires Reports(t, a, b) && Reports(t, b, c)
    ensures Reports(t, a, c)
  {
    hide Bare, NoToken;
    assert Foreign(t, a.pos, c.pos) <==> Foreign(t, a.pos, b.pos) || Foreign(t, b.pos, c.pos);
    assert SomeBare(t, a.curr.start, c.curr.start) <==>
      SomeBare(t, a.curr.start, b.curr.start) || SomeBare(t, b.curr.start, c.curr.start);
  }

  lemma {:induction false} AlphaOnly(t: string, i: nat)
    requires i <= |t|
    ensures forall j | i <= j < AlphaEnd(t, i) :: IsAlpha(t[j])
    decreases |t| - i
  {
    if IsAlpha(Peek(t, i)) {
      AlphaOnly(t, i + 1);
    }
  }

  /** The characters of a token belong to tokens, and a dot is a token of its own. */
  lemma TokenChars(t: string, p: nat)
    requires p <= |t|
    ensures var k := Lex(t, p);
      && (k.kind == Err <==> p < |t| && NoToken(t[p]))
      && (k.kind != Err ==> forall i | p <= i < p + k.len :: !NoToken(t[i]))
      && (k.kind == Dot <==> p < |t| && t[p] == '.')
      && (k.kind != Dot ==> forall i | p <= i < p + k.len :: t[i] != '.')
  {
    if p < |t| { AlphaOnly(t, p + 1); }
  }

  lemma {:induction false} SkipChars(t: string, p: nat)
    requires p <= |t|
    ensures forall i | p <= i < Skip(t, p) :: NoToken(t[i])
    decreases |t| - p
  {
    TokenChars(t, p);
    hide Lex;
    if Lex(t, p).kind == Err {
      SkipChars(t, p + 1);
    }
  }

  /** Over one advance, the foreign characters are those it skips. */
  lemma AdvanceForeign(t: string, st: State)
    requires st.pos <= |t|
    ensures Advance(t, st).err <==> st.err || Foreign(t, st.pos, Advance(t, st).pos)
    ensures st.pos <= Advance(t, st).pos
  {
    hide Lex;
    var p := Skip(t, st.pos);
    SkipChars(t, st.pos);
    TokenChars(t, p);
    if p != st.pos { assert NoToken(t[st.pos]); }
  }

  lemma NoDots(t: string, st: State)
    requires Wf(t, st) && st.curr.kind != Dot
    ensures !SomeBare(t, st.curr.start, Advance(t, st).curr.start)
  {
    hide Lex;
    SkipChars(t, st.pos);
    TokenChars(t, st.curr.start);
  }

  lemma AdvanceReports(t: string, st: State)
    requires Wf(t, st) && st.curr.kind != Dot
    ensures Wf(t, Advance(t, st)) && Reports(t, st, Advance(t, st))
  {
    hide Advance, Foreign, SomeBare;
    AdvanceWf(t, st);
    AdvanceForeign(t, st);
    NoDots(t, st);
  }

  /** A dot and what should be its extension. */
  lemma FilenameReports(t: string, st: State)
    requires Wf(t, st) && st.curr.kind == Dot
    ensures Wf(t, FilenameState(t, st)) && Reports(t, st, FilenameState(t, st))
  {
    hide Lex, Foreign;
    var st2 := Advance(t, st);
    AdvanceWf(t, st);
    AdvanceForeign(t, st);
    DotHere(t, st);
    if st2.curr.kind == Identifier {
      var st3 := Advance(t, st2);
      AdvanceReports(t, st2);
      ReportsMore(t, st, st2, st3);
    } else {
      assert Bare(t, st.curr.start);
    }
  }

  /** The only dot between a dot and the next token is that dot. */
  lemma DotHere(t: string, st: State)
    requires Wf(t, st) && st.curr.kind == Dot
    ensures st.curr.start < Advance(t, st).curr.start
    ensures SomeBare(t, st.curr.start, Advance(t, st).curr.start) <==> Bare(t, st.curr.start)
    ensures Bare(t, st.curr.start) <==> Advance(t, st).curr.kind != Identifier
  {
    SkipChars(t, st.pos);
  }

  lemma EntryReports(t: string, st: State)
    requires Wf(t, st)
    ensures Wf(t, EntryState(t, st)) && Reports(t, st, EntryState(t, st))
  {
    hide Lex, Advance, Foreign, SomeBare, FilenameState;
    if st.curr.kind == Identifier {
      var st1 := Advance(t, st);
      AdvanceReports(t, st);
      if st1.curr.kind == Dot {
        FilenameReports(t, st1);
        ReportsMore(t, st, st1, FilenameState(t, st1));
      }
    } else {
      NothingPassed(t, st);
    }
  }

  lemma NothingPassed(t: string, st: State)
    ensures Reports(t, st, st)
  {
  }

  lemma {:induction false} EntriesReport(t: string, st: State)
    requires Wf(t, st)
    ensures Entries(t, st).Some? ==> Reports(t, st, Entries(t, st).value.1)
    decreases |t| - st.curr.start
  {
    hide Lex, Advance, EntryState, EntryText, Reports;
    if st.curr.kind == Slash {
      var st1 := Advance(t, st);
      AdvanceWf(t, st);
      AdvanceReports(t, st);
      EntryWf(t, st1);
      EntryReports(t, st1);
      var st2 := EntryState(t, st1);
      EntriesReport(t, st2);
      if Entries(t, st).Some? {
        ReportsMore(t, st, st1, st2);
        ReportsMore(t, st, st2, Entries(t, st).value.1);
      }
    } else {
      NothingPassed(t, st);
    }
  }

  /** A drive letter is always followed by its colon. */
  lemma DriveReports(t: string, st: State)
    requires Wf(t, st)
    ensures Wf(t, DriveState(t, st)) && Reports(t, st, DriveState(t, st))
  {
    if st.curr.kind == Letter {
      var st1 := Advance(t, st);
      ColonNext(t, st);
      hide Lex, Skip, Advance, Foreign, SomeBare;
      AdvanceReports(t, st);
      AdvanceReports(t, st1);
      ReportsMore(t, st, st1, Advance(t, st1));
    } else {
      NothingPassed(t, st);
    }
  }

  lemma ColonNext(t: string, st: State)
    requires Wf(t, st) && st.curr.kind == Letter
    ensures Advance(t, st).curr.kind == Colon
  {
    AdvanceTo(t, st);
  }

  /** The state in which the parser is done. */
  ghost function Done(t: string, curr: Token, err: bool): (r: Option<State>)
    ensures r.Some? ==> Wf(t, r.value)
  {
    var st := First(t, curr, err);
    DriveWf(t, st);
    match Entries(t, DriveState(t, st))
    case None => None
    case Some(r) => Some(r.1)
  }

  /** Which paths are reported: the error flag comes out set if and only if it was set before, a character of the text
      up to the last token looked at belongs to no token, or a dot in front of that token has no extension. */
  lemma ErrorMeaning(t: string, curr: Token, err: bool, ptr: nat -> nat)
    requires Parse(t, curr, err, ptr).Parsed?
    ensures Done(t, curr, err).Some?
    ensures var end := Done(t, curr, err).value;
      Parse(t, curr, err, ptr).err <==>
        err || (exists i: nat :: i < end.pos && NoToken(t[i])) || (exists i: nat :: i < end.curr.start && Bare(t, i))
  {
    hide Lex, Skip, Entries, DriveState, Bare, NoToken, ShownAll, DriveText;
    var st := First(t, curr, err);
    DriveWf(t, st);
    var st1 := DriveState(t, st);
    var end := Entries(t, st1).value.1;
    DriveReports(t, st);
    EntriesReport(t, st1);
    ReportsMore(t, st, st1, end);
    FirstReports(t, curr, err);
    assert Foreign(t, 0, end.pos) <==> Foreign(t, 0, st.pos) || Foreign(t, st.pos, end.pos);
    assert SomeBare(t, 0, end.curr.start) <==>
      SomeBare(t, 0, st.curr.start) || SomeBare(t, st.curr.start, end.curr.start);
  }

  lemma FirstReports(t: string, curr: Token, err: bool)
    ensures var st := First(t, curr, err);
      (st.err <==> err || Foreign(t, 0, st.pos)) && !SomeBare(t, 0, st.curr.start)
  {
    hide Lex;
    AdvanceForeign(t, State(0, curr, curr, err));
    SkipChars(t, 0);
  }
}
