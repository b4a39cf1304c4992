/** The store handling of utils/vectorstore.py: the load-or-build decision
    of `get_or_create_vectorstore` and the prompt `ask_persona` builds.

    The file system is a map from path to what the path holds. Each user has
    two artifacts: the saved index `vectorstores/<user>` and the text dump
    `chats/<user>.txt`. When both exist the store is loaded from the index
    and the documents passed in are not looked at; otherwise an empty
    document list is an error, raised before anything is touched; otherwise
    both artifacts are removed, the two directories made if missing, the dump
    written and the index built and saved. Building and loading the index,
    the embeddings, retrieval and the language model are not modelled: a
    loaded store records the path it came from, a built one the documents it
    was built from, and retrieval and the model are parameters. */
module VectorStore {
  import opened Wrappers
  import opened Text
  import opened ChatLoader

  /** What a path holds. A saved index is one entry, whatever files the
      index library writes inside its directory. */
  datatype Entry = Directory | TextFile(text: string) | SavedIndex(docs: seq<Document>)

  type FileSystem = map<string, Entry>

  function IndexPath(user: string): string {
    "vectorstores/" + user
  }

  function ChatPath(user: string): string {
    "chats/" + user + ".txt"
  }

  const ChatsDir: string := "chats"
  const IndexDir: string := "vectorstores"

  /** A store loaded from a saved index, or one built from documents. */
  datatype Store = Loaded(path: string) | Built(docs: seq<Document>)

  /** The `ValueError` for an empty document list. */
  datatype StoreError = NoDocuments(user: string)

  function Contents(docs: seq<Document>): (cs: seq<string>)
    ensures |cs| == |docs| && forall k :: 0 <= k < |docs| ==> cs[k] == docs[k].content
  {
    seq(|docs|, k requires 0 <= k < |docs| => docs[k].content)
  }

  /** The text written to the dump: each document's content and a line
      feed, in order. */
  function Dump(docs: seq<Document>): (d: string)
    ensures |d| == 0 <==> |docs| == 0
    ensures |docs| > 0 ==> d[|d| - 1] == '\n'
    ensures |d| >= |docs|
    decreases |docs|
  {
    if |docs| == 0 then ""
    else Dump(docs[..|docs| - 1]) + docs[|docs| - 1].content + "\n"
  }

  /** The dump is the contents joined by line feeds, with a final line feed. */
  lemma {:induction false} DumpIsJoin(docs: seq<Document>)
    ensures Dump(docs) == Join(Contents(docs) + [""], "\n")
    decreases |docs|
  {
    if |docs| > 0 {
      var init := docs[..|docs| - 1];
      var c := docs[|docs| - 1].content;
      var cs := Contents(init);
      assert Dump(init) == Join(cs + [""], "\n") by {
        DumpIsJoin(init);
      }
      assert Contents(docs) + [""] == (cs + [c]) + [""];
      assert Join((cs + [c]) + [""], "\n") == Join(cs + [c], "\n") + "\n" by {
        JoinSnoc(cs + [c], "", "\n");
      }
      if |cs| == 0 {
        assert Join(cs + [""], "\n") == "" && Join(cs + [c], "\n") == c by {
          assert cs + [""] == [""] && cs + [c] == [c];
        }
      } else {
        var j := Join(cs, "\n");
        assert Join(cs + [""], "\n") == j + "\n" by {
          JoinSnoc(cs, "", "\n");
        }
        assert Join(cs + [c], "\n") == j + "\n" + c by {
          JoinSnoc(cs, c, "\n");
        }
        assert j + "\n" + c + "\n" == (j + "\n") + c + "\n";
      }
    }
  }

  /** Reading the dump back line by line gives the contents in order, then
      the empty piece after the final line feed. */
  lemma DumpLines(docs: seq<Document>)
    requires forall k :: 0 <= k < |docs| ==> '\n' !in docs[k].content
    ensures Split(Dump(docs), '\n') == Contents(docs) + [""]
  {
    var parts := Contents(docs) + [""];
    assert forall k :: 0 <= k < |parts| ==> '\n' !in parts[k] by {
      forall k | 0 <= k < |parts|
        ensures '\n' !in parts[k]
      {
        if k < |docs| {
          assert parts[k] == docs[k].content;
        }
      }
    }
    calc {
      Split(Dump(docs), '\n');
    == { DumpIsJoin(docs); }
      Split(Join(parts, ['\n']), '\n');
    == { SplitJoin(parts, '\n'); }
      parts;
    }
  }

  /** The documents of a chat are single lines, so its dump reads back into
      them. */
  lemma ChatDumpLines(text: string)
    ensures Split(Dump(LoadWhatsappChat(text)), '\n') == Contents(LoadWhatsappChat(text)) + [""]
  {
    DumpLines(LoadWhatsappChat(text));
  }

  /** `p` holds the same in both file systems. */
  predicate Same(fs: FileSystem, fs2: FileSystem, p: string) {
    (p in fs <==> p in fs2) && (p in fs ==> fs[p] == fs2[p])
  }

  /** `os.makedirs(dir, exist_ok=True)`. */
  function MakeDir(fs: FileSystem, dir: string): FileSystem {
    if dir in fs then fs else fs[dir := Directory]
  }

  /** `get_or_create_vectorstore`: the file system afterwards and the store
      or the error. */
  function GetOrCreate(fs: FileSystem, docs: seq<Document>, user: string): (r: (FileSystem, Result<Store, StoreError>))
    ensures IndexPath(user) in fs && ChatPath(user) in fs ==> r == (fs, Success(Loaded(IndexPath(user))))
    ensures r.1.Failure? <==> !(IndexPath(user) in fs && ChatPath(user) in fs) && |docs| == 0
    ensures r.1.Failure? ==> r == (fs, Failure(NoDocuments(user)))
    ensures !(IndexPath(user) in fs && ChatPath(user) in fs) && |docs| > 0 ==> r.1 == Success(Built(docs))
    ensures r.1.Success? ==> IndexPath(user) in r.0 && ChatPath(user) in r.0
    ensures r.1.Success? && r.1.value.Built? ==>
      && r.1.value.docs == docs
      && r.0[ChatPath(user)] == TextFile(Dump(docs))
      && r.0[IndexPath(user)] == SavedIndex(docs)
      && ChatsDir in r.0 && IndexDir in r.0
    ensures r.1.Success? && r.1.value.Built? ==>
      && (ChatsDir !in fs ==> r.0[ChatsDir] == Directory)
      && (IndexDir !in fs ==> r.0[IndexDir] == Directory)
    ensures forall p :: p in fs && p != IndexPath(user) && p != ChatPath(user) ==> p in r.0 && r.0[p] == fs[p]
    ensures forall p :: p in r.0 && p !in fs ==> p == IndexPath(user) || p == ChatPath(user) || p == ChatsDir || p == IndexDir
  {
    var indexPath, chatPath := IndexPath(user), ChatPath(user);
    assert indexPath[0] == 'v' && chatPath[0] == 'c';
    assert |ChatsDir| < |chatPath| && |IndexDir| < |indexPath|;
    if indexPath in fs && chatPath in fs then (fs, Success(Loaded(indexPath)))
    else if |docs| == 0 then (fs, Failure(NoDocuments(user)))
    else
      var cleaned := fs - {indexPath, chatPath};
      var withDirs := MakeDir(MakeDir(cleaned, ChatsDir), IndexDir);
      var written := withDirs[chatPath := TextFile(Dump(docs))];
      (written[indexPath := SavedIndex(docs)], Success(Built(docs)))
  }

  /** After a call that succeeds, the next call for the same user loads,
      whatever documents it is given, and writes nothing. */
  lemma LoadAfterBuild(fs: FileSystem, docs: seq<Document>, later: seq<Document>, user: string)
    requires GetOrCreate(fs, docs, user).1.Success?
    ensures var fs2 := GetOrCreate(fs, docs, user).0;
      GetOrCreate(fs2, later, user) == (fs2, Success(Loaded(IndexPath(user))))
  {
    var fs2 := GetOrCreate(fs, docs, user).0;
    assert IndexPath(user) in fs2 && ChatPath(user) in fs2;
  }

  /** Different users have different artifact paths, and no artifact path
      is one of the two directories. */
  lemma PathsDistinct(u: string, v: string)
    requires u != v
    ensures IndexPath(u) != IndexPath(v) && ChatPath(u) != ChatPath(v)
    ensures ChatPath(u) != IndexPath(v)
    ensures ChatPath(v) !in {ChatsDir, IndexDir} && IndexPath(v) !in {ChatsDir, IndexDir}
  {
    assert IndexPath(u)[13..] == u && IndexPath(v)[13..] == v;
    assert ChatPath(u)[6..|ChatPath(u)| - 4] == u && ChatPath(v)[6..|ChatPath(v)| - 4] == v;
    assert ChatPath(u)[0] == 'c' && IndexPath(v)[0] == 'v';
    assert ChatPath(v)[0] == 'c' && |ChatPath(v)| > |ChatsDir|;
    assert |IndexPath(v)| > |IndexDir|;
  }

  /** A call for one user leaves another user's artifacts as they were. */
  lemma OtherUsersUntouched(fs: FileSystem, docs: seq<Document>, user: string, other: string)
    requires user != other
    ensures var fs2 := GetOrCreate(fs, docs, user).0;
      Same(fs, fs2, IndexPath(other)) && Same(fs, fs2, ChatPath(other))
  {
    PathsDistinct(user, other);
    PathsDistinct(other, user);
  }

  // ---------------------------------------------------------------------
  // The prompt
  // ---------------------------------------------------------------------

  /** Where the `k`-th part starts in `Join(parts, sep)`. */
  function Offset(parts: seq<string>, sep: string, k: nat): nat
    requires k <= |parts|
    decreases k
  {
    if k == 0 then 0 else |parts[0]| + |sep| + Offset(parts[1..], sep, k - 1)
  }

  lemma ShiftOccurs(a: string, s: string, pat: string, i: nat)
    requires OccursAt(s, pat, i)
    ensures OccursAt(a + s, pat, |a| + i)
  {
    assert (a + s)[|a| + i..|a| + i + |pat|] == s[i..i + |pat|];
  }

  /** Each part appears verbatim at its offset, and each part starts after
      the previous one and the separator. */
  lemma {:induction false} JoinAt(parts: seq<string>, sep: string, k: nat)
    requires k < |parts|
    ensures OccursAt(Join(parts, sep), parts[k], Offset(parts, sep, k))
    ensures k + 1 < |parts| ==> Offset(parts, sep, k + 1) == Offset(parts, sep, k) + |parts[k]| + |sep|
    ensures k + 1 < |parts| ==> OccursAt(Join(parts, sep), sep, Offset(parts, sep, k) + |parts[k]|)
    decreases k
  {
    if k == 0 {
      if |parts| > 1 {
        assert Join(parts, sep) == parts[0] + (sep + Join(parts[1..], sep));
        assert Join(parts, sep)[|parts[0]|..|parts[0]| + |sep|] == sep;
      }
    } else {
      var rest := parts[1..];
      var o := Offset(rest, sep, k - 1);
      var head := parts[0] + sep;
      JoinAt(rest, sep, k - 1);
      assert rest[k - 1] == parts[k];
      assert Join(parts, sep) == head + Join(rest, sep) by {
        assert |parts| > 1;
      }
      assert Offset(parts, sep, k) == |head| + o;
      ShiftOccurs(head, Join(rest, sep), parts[k], o);
      if k + 1 < |parts| {
        assert Offset(parts, sep, k + 1) == |head| + Offset(rest, sep, k);
        ShiftOccurs(head, Join(rest, sep), sep, o + |parts[k]|);
      }
    }
  }

  /** The context: the retrieved contents separated by blank lines. */
  function Context(contents: seq<string>): string {
    Join(contents, "\n\n")
  }

  /** The fixed text of the prompt around its three fields. */
  datatype Template = Template(opening: string, rules: string, question: string, closing: string, end: string)

  const PromptTemplate: Template := Template(
    "\nYou are simulating a person named **'",
    "'**, based on their WhatsApp messages.\n\n"
    + "Your job is to **respond like them**, not just copy-paste old messages. You must:\n"
    + "- Speak in their usual tone, mood, slang, or expressions.\n"
    + "- Reference events, jokes, or incidents from their past messages when relevant.\n"
    + "- Maintain consistency in personality (e.g., sarcastic, kind, dry, emotional, etc.).\n"
    + "- Recall things they used to care about, complain about, or mention frequently.\n"
    + "- You are them, because you have their entire chat history as context.\n\n"
    + "--- PAST CHAT CONTEXT ---\n",
    "\n--------------------------\n\nNow, given this situation or question:\n\U{2753} ",
    "\n\nRespond just like *",
    "* would:\n")

  /** The template with the persona, the context and the query filled in. */
  function Fill(t: Template, persona: string, context: string, query: string): string {
    t.opening + persona + t.rules + context + t.question + query + t.closing + persona + t.end
  }

  /** Where the context starts in a filled template. */
  function ContextAt(t: Template, persona: string): nat {
    |t.opening| + |persona| + |t.rules|
  }

  /** A filled template holds the persona (twice), the context and the query
      verbatim, in that order. */
  lemma FillVerbatim(t: Template, persona: string, context: string, query: string)
    ensures var filled := Fill(t, persona, context, query);
      var i := ContextAt(t, persona);
      var j := i + |context| + |t.question|;
      && OccursAt(filled, persona, |t.opening|)
      && OccursAt(filled, context, i)
      && OccursAt(filled, query, j)
      && OccursAt(filled, persona, j + |query| + |t.closing|)
  {
    var filled := Fill(t, persona, context, query);
    var a := t.opening;
    var b := a + persona + t.rules;
    var c := b + context + t.question;
    var d := c + query + t.closing;
    assert filled == d + persona + t.end;
    assert filled[|a|..|a| + |persona|] == persona;
    assert filled[|b|..|b| + |context|] == context;
    assert filled[|c|..|c| + |query|] == query;
    assert filled[|d|..|d| + |persona|] == persona;
  }

  lemma OccursWithin(s: string, t: string, u: string, i: nat, j: nat)
    requires OccursAt(s, t, i) && OccursAt(t, u, j)
    ensures OccursAt(s, u, i + j)
  {
    assert forall m :: 0 <= m < |t| ==> s[i + m] == t[m];
    assert s[i + j..i + j + |u|] == t[j..j + |u|];
  }

  /** The model's answer: its `content` when it has one, else its text form. */
  datatype Response = Response(content: Option<string>, repr: string)

  /** Each retrieved content sits in the prompt at its place in the context. */
  lemma ContentsInPrompt(t: Template, persona: string, cs: seq<string>, query: string, k: nat)
    requires k < |cs|
    ensures OccursAt(Fill(t, persona, Context(cs), query), cs[k], ContextAt(t, persona) + Offset(cs, "\n\n", k))
    ensures k + 1 < |cs| ==> Offset(cs, "\n\n", k) + |cs[k]| < Offset(cs, "\n\n", k + 1)
    ensures k + 1 < |cs| ==>
      OccursAt(Fill(t, persona, Context(cs), query), "\n\n", ContextAt(t, persona) + Offset(cs, "\n\n", k) + |cs[k]|)
  {
    var filled := Fill(t, persona, Context(cs), query);
    FillVerbatim(t, persona, Context(cs), query);
    JoinAt(cs, "\n\n", k);
    OccursWithin(filled, Context(cs), cs[k], ContextAt(t, persona), Offset(cs, "\n\n", k));
    if k + 1 < |cs| {
      OccursWithin(filled, Context(cs), "\n\n", ContextAt(t, persona), Offset(cs, "\n\n", k) + |cs[k]|);
    }
  }

  /** The filled template holds the persona, the query and every content,
      in order and without overlap. */
  lemma PromptHolds(t: Template, persona: string, cs: seq<string>, query: string)
    ensures var prompt := Fill(t, persona, Context(cs), query);
      var i := ContextAt(t, persona);
      && OccursAt(prompt, persona, |t.opening|)
      && OccursAt(prompt, query, i + |Context(cs)| + |t.question|)
      && (forall k :: 0 <= k < |cs| ==> OccursAt(prompt, cs[k], i + Offset(cs, "\n\n", k)))
      && (forall k :: 0 <= k && k + 1 < |cs| ==> Offset(cs, "\n\n", k) + |cs[k]| < Offset(cs, "\n\n", k + 1))
      && (forall k :: 0 <= k && k + 1 < |cs| ==> OccursAt(prompt, "\n\n", i + Offset(cs, "\n\n", k) + |cs[k]|))
  {
    FillVerbatim(t, persona, Context(cs), query);
    forall k | 0 <= k < |cs|
      ensures OccursAt(Fill(t, persona, Context(cs), query), cs[k], ContextAt(t, persona) + Offset(cs, "\n\n", k))
      ensures k + 1 < |cs| ==> Offset(cs, "\n\n", k) + |cs[k]| < Offset(cs, "\n\n", k + 1)
      ensures k + 1 < |cs| ==>
        OccursAt(Fill(t, persona, Context(cs), query), "\n\n", ContextAt(t, persona) + Offset(cs, "\n\n", k) + |cs[k]|)
    {
      ContentsInPrompt(t, persona, cs, query, k);
    }
  }

  /** `ask_persona` with retrieval and the model as parameters, for a given
      template: the prompt sent and the answer returned. Every retrieved
      content appears in the prompt verbatim, in retrieval order, as do the
      persona and the query; the answer is the model's `content` when it has
      one and its text form otherwise. */
  function Ask(t: Template, query: string, persona: string,
               retrieve: string -> seq<Document>,
               invoke: string -> Response): (r: (string, string))
    ensures var cs := Contents(retrieve(query));
      var i := ContextAt(t, persona);
      && OccursAt(r.0, persona, |t.opening|)
      && OccursAt(r.0, query, i + |Context(cs)| + |t.question|)
      && (forall k :: 0 <= k < |cs| ==> OccursAt(r.0, cs[k], i + Offset(cs, "\n\n", k)))
      && (forall k :: 0 <= k && k + 1 < |cs| ==> Offset(cs, "\n\n", k) + |cs[k]| < Offset(cs, "\n\n", k + 1))
      && (forall k :: 0 <= k && k + 1 < |cs| ==> OccursAt(r.0, "\n\n", i + Offset(cs, "\n\n", k) + |cs[k]|))
    ensures invoke(r.0).content.Some? ==> r.1 == invoke(r.0).content.value
    ensures invoke(r.0).content.None? ==> r.1 == invoke(r.0).repr
  {
    var cs := Contents(retrieve(query));
    var prompt := Fill(t, persona, Context(cs), query);
    PromptHolds(t, persona, cs, query);
    var response := invoke(prompt);
    (prompt, match response.content case Some(text) => text case None => response.repr)
  }

  /** `ask_persona`: `Ask` with the source's template. The persona is named
      right after the opening instructions, and the answer is the model's
      `content` when it has one and its text form otherwise; where the
      retrieved contents and the query sit is `Ask`'s contract, which holds
      for every template. */
  function AskPersona(query: string, persona: string,
                      retrieve: string -> seq<Document>,
                      invoke: string -> Response): (r: (string, string))
    ensures OccursAt(r.0, persona, |PromptTemplate.opening|)
    ensures invoke(r.0).content.Some? ==> r.1 == invoke(r.0).content.value
    ensures invoke(r.0).content.None? ==> r.1 == invoke(r.0).repr
  {
    Ask(PromptTemplate, query, persona, retrieve, invoke)
  }
}
