/**
 Conversation-history threading for answer synthesis
 (consultar_streamlit_v2.py, `generar_respuesta_final`): every stored chat
 message becomes a turn of the chat session's seed history, with the role
 renamed to the generator's vocabulary and the content wrapped as the single
 part of the turn. Opening the chat session and sending the prompt are
 external calls and are not part of this model.
 */
module History {

  const UserRole: string := "user"
  const ModelRole: string := "model"
  const AssistantRole: string := "assistant"

  /** A message as the chat front end stores it; assistant messages also carry
      the list of source URLs shown with them. */
  datatype Message = Message(role: string, content: string, urls: seq<string>)

  /** A turn in the generator's history format, `{'role': ..., 'parts': [...]}`. */
  datatype ChatTurn = ChatTurn(role: string, parts: seq<string>)

  /** One message as a chat turn: `'user'` stays `'user'`, every other role
      becomes `'model'`; the content is the one part; the URLs are dropped. */
  function ToChatTurn(m: Message): (t: ChatTurn)
    ensures t.role == UserRole <==> m.role == UserRole
    ensures t.role == UserRole || t.role == ModelRole
    ensures t.parts == [m.content]
  {
    ChatTurn(if m.role == UserRole then UserRole else ModelRole, [m.content])
  }

  /** The whole history, message by message, in the original order. */
  function ToChatHistory(history: seq<Message>): (turns: seq<ChatTurn>)
    ensures |turns| == |history|
    ensures forall i :: 0 <= i < |history| ==>
      turns[i].parts == [history[i].content]
      && (turns[i].role == UserRole <==> history[i].role == UserRole)
      && (turns[i].role == UserRole || turns[i].role == ModelRole)
  {
    if history == [] then []
    else ToChatHistory(history[..|history| - 1]) + [ToChatTurn(history[|history| - 1])]
  }

  /** Mapping commutes with appending: the seed history of a conversation that
      grew by some messages is the old seed history followed by theirs. */
  lemma {:induction false} ToChatHistoryAppend(a: seq<Message>, b: seq<Message>)
    ensures ToChatHistory(a + b) == ToChatHistory(a) + ToChatHistory(b)
    decreases |b|
  {
    if b != [] {
      var b' := b[..|b| - 1];
      ToChatHistoryAppend(a, b');
      assert (a + b)[..|a + b| - 1] == a + b';
    } else {
      assert a + b == a;
    }
  }

  /** Only the role and the content matter: two histories that agree on them
      give the same seed history, whatever URLs were stored. */
  lemma {:induction false} ToChatHistoryIgnoresUrls(a: seq<Message>, b: seq<Message>)
    requires |a| == |b|
    requires forall i :: 0 <= i < |a| ==> a[i].role == b[i].role && a[i].content == b[i].content
    ensures ToChatHistory(a) == ToChatHistory(b)
    decreases |a|
  {
    if a != [] {
      ToChatHistoryIgnoresUrls(a[..|a| - 1], b[..|b| - 1]);
    }
  }

  /** A user greeting followed by the assistant's reply seeds exactly those two
      turns, in order, the second under the generator's own role. */
  lemma ToChatHistoryExample()
    ensures ToChatHistory([Message(UserRole, "hi", []), Message(AssistantRole, "hello", ["u"])])
         == [ChatTurn(UserRole, ["hi"]), ChatTurn(ModelRole, ["hello"])]
  {
    var h := [Message(UserRole, "hi", []), Message(AssistantRole, "hello", ["u"])];
    assert h[..1] == [h[0]];
    assert AssistantRole != UserRole;
  }
}
