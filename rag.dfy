/**
 * The two-node retrieval-augmented generation graph of langraph-example.py.
 *
 * The graph state is a dictionary with the keys "question", "context" and
 * "response". The retrieve node asks the retriever for documents about the question
 * and joins their page contents with a blank line; the generate node fills the prompt
 * template with the context and the question and asks the language model. The graph
 * runs retrieve, then generate, then ends, merging each node's returned update into
 * the state.
 *
 * The retriever (a similarity search in ChromaDB) and the language model (Ollama) are
 * given as functions; what they compute is not modelled.
 */
module Rag {

  /** What `retrieve_node` puts between two page contents. */
  const Separator: string := "\n\n"
  /** The fixed text of the prompt template before the context and before the question. */
  const ContextLabel: string := "Context: "
  const QuestionLabel: string := "\n\nQuestion: "

  const QuestionKey: string := "question"
  const ContextKey: string := "context"
  const ResponseKey: string := "response"

  /** The keys of the `GraphState` schema: the only channels the compiled graph keeps. */
  const SchemaKeys: set<string> := {QuestionKey, ContextKey, ResponseKey}

  /** A retrieved document; only its page content is used. */
  datatype Document = Document(pageContent: string)

  /** The graph state and the updates the nodes return, as dictionaries. */
  type State = map<string, string>

  /** `retriever.invoke(question)`: the documents found for a question, most relevant first. */
  type Retriever = string -> seq<Document>

  /** `llm.invoke(prompt).content`: the model's answer to a prompt. */
  type Llm = string -> string

  /** Python's `sep.join(parts)`. No parts give the empty string, and otherwise the
      result starts with the first part. */
  function Join(sep: string, parts: seq<string>): (s: string)
    ensures parts == [] ==> s == ""
    ensures parts != [] ==> |parts[0]| <= |s| && s[..|parts[0]|] == parts[0]
  {
    if |parts| == 0 then ""
    else if |parts| == 1 then parts[0]
    else Join(sep, parts[..|parts| - 1]) + sep + parts[|parts| - 1]
  }

  /** The length of `parts` written out with a separator after each part: where the
      part that follows them starts in the joined string. */
  function Offset(sep: string, parts: seq<string>): nat {
    if parts == [] then 0 else Offset(sep, parts[..|parts| - 1]) + |parts[|parts| - 1]| + |sep|
  }

  /** Joining n >= 1 parts adds n - 1 separators to the parts' lengths. */
  lemma {:induction false} JoinLength(sep: string, parts: seq<string>)
    requires parts != []
    ensures |Join(sep, parts)| + |sep| == Offset(sep, parts)
  {
    if |parts| == 1 {
      assert parts[..0] == [];
    } else {
      JoinLength(sep, parts[..|parts| - 1]);
    }
  }

  /** The joined string holds the parts in their given order: part i sits right after
      parts 0 .. i-1 and their separators, and one separator follows every part but the
      last. Together with JoinLength this determines the joined string. */
  lemma {:induction false} JoinLayout(sep: string, parts: seq<string>, i: nat)
    requires i < |parts|
    ensures Offset(sep, parts[..i]) + |parts[i]| <= |Join(sep, parts)|
    ensures Join(sep, parts)[Offset(sep, parts[..i])..Offset(sep, parts[..i]) + |parts[i]|] == parts[i]
    ensures i + 1 < |parts| ==>
      Offset(sep, parts[..i]) + |parts[i]| + |sep| <= |Join(sep, parts)| &&
      Join(sep, parts)[Offset(sep, parts[..i]) + |parts[i]|..Offset(sep, parts[..i]) + |parts[i]| + |sep|] == sep
  {
    var n := |parts|;
    assert parts[..i + 1][..i] == parts[..i];
    if n == 1 {
      assert parts[..0] == [];
    } else {
      var init, last := parts[..n - 1], parts[n - 1];
      var j := Join(sep, init);
      assert Join(sep, parts) == j + sep + last;
      JoinLength(sep, init);
      if i == n - 1 {
        assert parts[..i] == init;
      } else {
        assert init[..i] == parts[..i] && init[i] == parts[i];
        JoinLayout(sep, init, i);
        if i + 1 < n - 1 {
          assert init[..i + 1] == parts[..i + 1];
        } else {
          assert parts[..i + 1] == init;
          assert init[..n - 2] == parts[..i];
        }
      }
    }
  }

  /** The page contents of the retrieved documents, in the retriever's order. */
  function PageContents(docs: seq<Document>): (texts: seq<string>)
    ensures |texts| == |docs|
    ensures forall i :: 0 <= i < |docs| ==> texts[i] == docs[i].pageContent
  {
    seq(|docs|, i requires 0 <= i < |docs| => docs[i].pageContent)
  }

  /** The context string built from the retrieved documents: empty for no documents,
      otherwise starting with the first document's content and ending with the last's. */
  function Context(docs: seq<Document>): (c: string)
    ensures docs == [] ==> c == ""
    ensures docs != [] ==> |docs[0].pageContent| <= |c| && c[..|docs[0].pageContent|] == docs[0].pageContent
    ensures docs != [] ==>
      |docs[|docs| - 1].pageContent| <= |c| && c[|c| - |docs[|docs| - 1].pageContent|..] == docs[|docs| - 1].pageContent
  {
    Join(Separator, PageContents(docs))
  }

  /** `retrieve_node`: the update holds the context key and nothing else. No document
      gives the empty context, and a single document gives its content unchanged. */
  function RetrieveNode(retriever: Retriever, state: State): (update: State)
    requires QuestionKey in state
    ensures update.Keys == {ContextKey}
    ensures retriever(state[QuestionKey]) == [] ==> update[ContextKey] == ""
    ensures |retriever(state[QuestionKey])| == 1 ==>
      update[ContextKey] == retriever(state[QuestionKey])[0].pageContent
  {
    map[ContextKey := Context(retriever(state[QuestionKey]))]
  }

  /** The i-th retrieved document's content appears in the context at the place its
      position in the retriever's list gives it, followed by a blank line unless it is
      the last one. */
  lemma ContextKeepsRetrieverOrder(docs: seq<Document>, i: nat)
    requires i < |docs|
    ensures var at := Offset(Separator, PageContents(docs)[..i]);
      at + |docs[i].pageContent| <= |Context(docs)| &&
      Context(docs)[at..at + |docs[i].pageContent|] == docs[i].pageContent &&
      (i + 1 < |docs| ==>
        at + |docs[i].pageContent| + |Separator| <= |Context(docs)| &&
        Context(docs)[at + |docs[i].pageContent|..at + |docs[i].pageContent| + |Separator|] == Separator)
  {
    var parts := PageContents(docs);
    JoinLayout(Separator, parts, i);
    assert parts[..i + 1][..i] == parts[..i];
  }

  /** The prompt template. The prompt starts with the label and the context and ends
      with the question label and the question. */
  function Prompt(context: string, question: string): (p: string)
    ensures |p| == |ContextLabel| + |context| + |QuestionLabel| + |question|
    ensures p[..|ContextLabel| + |context|] == ContextLabel + context
    ensures p[|p| - |QuestionLabel| - |question|..] == QuestionLabel + question
  {
    ContextLabel + context + QuestionLabel + question
  }

  /** Questions of one length: the prompt determines both the context and the question. */
  lemma PromptInjective(c1: string, q1: string, c2: string, q2: string)
    requires |q1| == |q2|
    requires Prompt(c1, q1) == Prompt(c2, q2)
    ensures c1 == c2 && q1 == q2
  {
    var p := Prompt(c1, q1);
    assert c1 == p[|ContextLabel|..|ContextLabel| + |c1|];
    assert c2 == p[|ContextLabel|..|ContextLabel| + |c2|];
    assert q1 == p[|p| - |q1|..];
    assert q2 == p[|p| - |q2|..];
  }

  /** Without that condition the prompt does not determine its parts: a context that
      itself contains the question label reads the same as a longer question. */
  lemma PromptAmbiguous()
    ensures Prompt("a\n\nQuestion: b", "c") == Prompt("a", "b\n\nQuestion: c")
  {
  }

  /** `generate_node`: the update holds the response key and nothing else, and the
      response is the model's answer to the prompt built from the state's context and
      question. */
  function GenerateNode(llm: Llm, state: State): (update: State)
    requires ContextKey in state && QuestionKey in state
    ensures update.Keys == {ResponseKey}
    ensures update[ResponseKey] == llm(Prompt(state[ContextKey], state[QuestionKey]))
  {
    map[ResponseKey := llm(Prompt(state[ContextKey], state[QuestionKey]))]
  }

  /** The nodes of the compiled graph; End is LangGraph's END. */
  datatype Node = Retrieve | Generate | End

  /** The entry point set on the builder. */
  const EntryPoint: Node := Retrieve

  /** The graph's two edges: retrieve to generate, generate to END. */
  function Successor(n: Node): (m: Node)
    requires n != End
    ensures Distance(m) < Distance(n)
  {
    match n
    case Retrieve => Generate
    case Generate => End
  }

  /** How many nodes remain to run before END. */
  function Distance(n: Node): nat {
    match n
    case Retrieve => 2
    case Generate => 1
    case End => 0
  }

  /** The nodes visited from `n` until END, in order. */
  function Trace(n: Node): seq<Node>
    decreases Distance(n)
  {
    if n == End then [] else [n] + Trace(Successor(n))
  }

  /** The keys a node reads are in the state when it runs. */
  predicate Ready(n: Node, state: State) {
    match n
    case Retrieve => QuestionKey in state
    case Generate => QuestionKey in state && ContextKey in state
    case End => true
  }

  /** Running one node: its update is merged into the state, overwriting its keys. */
  function Step(n: Node, retriever: Retriever, llm: Llm, state: State): (next: State)
    requires n != End && Ready(n, state)
    ensures Ready(Successor(n), next)
    ensures next.Keys == state.Keys + (if n == Retrieve then {ContextKey} else {ResponseKey})
  {
    match n
    case Retrieve => state + RetrieveNode(retriever, state)
    case Generate => state + GenerateNode(llm, state)
  }

  /** Running the graph from node `n` until END: the question is never changed, no key
      is dropped, and a run that starts before END ends with a response. */
  function RunFrom(n: Node, retriever: Retriever, llm: Llm, state: State): (final: State)
    requires Ready(n, state)
    ensures state.Keys <= final.Keys
    ensures QuestionKey in state ==> final[QuestionKey] == state[QuestionKey]
    ensures n != End ==> ResponseKey in final
    decreases Distance(n)
  {
    if n == End then state else RunFrom(Successor(n), retriever, llm, Step(n, retriever, llm, state))
  }

  /** The input as the compiled graph takes it in: only the keys of its schema. */
  function SchemaOnly(input: State): (state: State)
    ensures state.Keys == input.Keys * SchemaKeys
    ensures forall k :: k in state ==> state[k] == input[k]
  {
    map k | k in input.Keys * SchemaKeys :: input[k]
  }

  /** `app.invoke(inputs)`: the final state holds exactly the schema's three keys. The
      question is the input's, retrieve sets the context from it, and generate answers
      the prompt built from that context. An input value for "context" or "response" is
      overwritten, and keys outside the schema are not kept. */
  function Invoke(retriever: Retriever, llm: Llm, input: State): (final: State)
    requires QuestionKey in input
    ensures final.Keys == SchemaKeys
    ensures final[QuestionKey] == input[QuestionKey]
    ensures final[ContextKey] == Context(retriever(input[QuestionKey]))
    ensures final[ResponseKey] == llm(Prompt(final[ContextKey], input[QuestionKey]))
  {
    RunFrom(EntryPoint, retriever, llm, SchemaOnly(input))
  }

  /** The graph visits retrieve, then generate, then stops. */
  lemma GraphOrder()
    ensures Trace(EntryPoint) == [Retrieve, Generate]
  {
  }

  /** When nothing is retrieved the context is empty and generation still runs, on a
      prompt that carries only the question. */
  lemma EmptyRetrievalStillGenerates(retriever: Retriever, llm: Llm, input: State)
    requires QuestionKey in input
    requires retriever(input[QuestionKey]) == []
    ensures Invoke(retriever, llm, input)[ContextKey] == ""
    ensures Invoke(retriever, llm, input)[ResponseKey] == llm("Context: \n\nQuestion: " + input[QuestionKey])
  {
    assert ContextLabel + "" + QuestionLabel == "Context: \n\nQuestion: ";
  }
}
