/** The batch sender both campaign scripts share: the recipient list is cut
    into consecutive slices of 500 addresses, each slice is posted to
    Postmark's batchWithTemplates endpoint as one payload, and the sizes of
    the slices the server answered with status 200 are added up. */
module Postmark {

  const BatchSize: nat := 500

  /** One entry of the "Messages" array of a payload. */
  datatype Message = Message(from: string, to: string, templateAlias: string,
                             templateModel: map<string, string>, messageStream: string)

  /** The JSON body {"Messages": [...]}. */
  datatype Payload = Payload(messages: seq<Message>)

  /** What requests.post gave back: a status code, or an exception. */
  datatype Response = Status(code: int) | Raised

  /** len(range(0, n, 500)): how many slices a list of n addresses makes. */
  function NumChunks(n: nat): nat {
    (n + BatchSize - 1) / BatchSize
  }

  /** Where slice k starts, clipped to the list length as Python slicing does. */
  function Lo(n: nat, k: nat): (i: nat)
    ensures i <= n
  {
    if k * BatchSize < n then k * BatchSize else n
  }

  /** email_list[i:i + 500] for i = 500 * k. */
  function Chunk<T>(s: seq<T>, k: nat): seq<T> {
    s[Lo(|s|, k)..Lo(|s|, k + 1)]
  }

  /** All the slices the loop visits, in order. */
  function Chunks<T>(s: seq<T>): (cs: seq<seq<T>>)
    ensures |cs| == NumChunks(|s|)
  {
    seq(NumChunks(|s|), k requires 0 <= k => Chunk(s, k))
  }

  function Flatten<T>(cs: seq<seq<T>>): seq<T> {
    if cs == [] then [] else Flatten(cs[..|cs| - 1]) + cs[|cs| - 1]
  }

  /** NumChunks is the ceiling of n / 500: the last slice starts before n
      and the slices reach n. */
  lemma NumChunksCeiling(n: nat)
    ensures NumChunks(n) * BatchSize >= n
    ensures NumChunks(n) == 0 || (NumChunks(n) - 1) * BatchSize < n
    ensures NumChunks(n) == 0 <==> n == 0
  {
  }

  /** The loop counter after p rounds determines p: exactly NumChunks(n)
      rounds run. */
  lemma RoundsAreChunks(n: nat, p: nat)
    requires p * BatchSize >= n
    requires p == 0 || (p - 1) * BatchSize < n
    ensures p == NumChunks(n)
  {
  }

  /** Every slice the loop visits holds between 1 and 500 addresses. */
  lemma ChunkSize<T>(s: seq<T>, k: nat)
    requires k < NumChunks(|s|)
    ensures Lo(|s|, k) == k * BatchSize
    ensures 0 < |Chunk(s, k)| <= BatchSize
  {
    NumChunksCeiling(|s|);
  }

  /** The first k slices put together are the first Lo(|s|, k) addresses. */
  lemma {:induction false} FlattenPrefix<T>(s: seq<T>, k: nat)
    requires k <= NumChunks(|s|)
    ensures Flatten(Chunks(s)[..k]) == s[..Lo(|s|, k)]
  {
    if k > 0 {
      var cs := Chunks(s);
      FlattenPrefix(s, k - 1);
      assert cs[..k][..k - 1] == cs[..k - 1];
      assert cs[..k][k - 1] == Chunk(s, k - 1);
    }
  }

  /** The slices put together give back the whole list: every address is
      sent once, in list order. */
  lemma FlattenChunks<T>(s: seq<T>)
    ensures Flatten(Chunks(s)) == s
  {
    NumChunksCeiling(|s|);
    FlattenPrefix(s, NumChunks(|s|));
    assert Chunks(s)[..NumChunks(|s|)] == Chunks(s);
  }

  /** The messages of one payload: one per address of the slice, in order. */
  function Messages(chunk: seq<string>, alias: string, sender: string, stream: string): (ms: seq<Message>)
    ensures |ms| == |chunk| && forall j :: 0 <= j < |ms| ==> ms[j].to == chunk[j]
    ensures forall m :: m in ms ==>
              m.from == sender && m.templateAlias == alias && m.templateModel == map[] && m.messageStream == stream
  {
    seq(|chunk|, j requires 0 <= j < |chunk| => Message(sender, chunk[j], alias, map[], stream))
  }

  /** The payloads posted for a list, one per slice. */
  function Posts(emails: seq<string>, alias: string, sender: string, stream: string): (ps: seq<Payload>)
    ensures |ps| == NumChunks(|emails|)
  {
    seq(NumChunks(|emails|), k requires 0 <= k => Payload(Messages(Chunk(emails, k), alias, sender, stream)))
  }

  /** The "To" addresses of the posted payloads, in posting order. */
  function Recipients(ps: seq<Payload>): seq<string> {
    if ps == [] then []
    else
      var ms := ps[|ps| - 1].messages;
      Recipients(ps[..|ps| - 1]) + seq(|ms|, j requires 0 <= j < |ms| => ms[j].to)
  }

  lemma {:induction false} RecipientsPrefix(emails: seq<string>, alias: string, sender: string, stream: string, k: nat)
    requires k <= NumChunks(|emails|)
    ensures Recipients(Posts(emails, alias, sender, stream)[..k]) == Flatten(Chunks(emails)[..k])
  {
    if k > 0 {
      var ps := Posts(emails, alias, sender, stream);
      var cs := Chunks(emails);
      RecipientsPrefix(emails, alias, sender, stream, k - 1);
      assert ps[..k][..k - 1] == ps[..k - 1];
      assert cs[..k][..k - 1] == cs[..k - 1];
      assert cs[..k][k - 1] == Chunk(emails, k - 1);
    }
  }

  /** Every address of the list is the "To" of exactly one message, and the
      messages follow the list order. */
  lemma PostsReachEveryone(emails: seq<string>, alias: string, sender: string, stream: string)
    ensures Recipients(Posts(emails, alias, sender, stream)) == emails
  {
    var ps := Posts(emails, alias, sender, stream);
    RecipientsPrefix(emails, alias, sender, stream, |ps|);
    assert ps[..|ps|] == ps;
    assert Chunks(emails)[..|ps|] == Chunks(emails);
    FlattenChunks(emails);
  }

  /** total_sent after the first k posts: the sizes of the slices whose
      response was status 200. It never exceeds the addresses posted so far. */
  function Sent(emails: seq<string>, respond: nat -> Response, k: nat): (n: nat)
    ensures n <= Lo(|emails|, k)
  {
    if k == 0 then 0
    else Sent(emails, respond, k - 1) + (if respond(k - 1) == Status(200) then |Chunk(emails, k - 1)| else 0)
  }

  /** What send_batch returns. Nothing is counted twice: the total never
      exceeds the list length. */
  function Delivered(emails: seq<string>, respond: nat -> Response): (total: nat)
    ensures total <= |emails|
  {
    Sent(emails, respond, NumChunks(|emails|))
  }

  lemma {:induction false} SentAll(emails: seq<string>, respond: nat -> Response, k: nat)
    requires k <= NumChunks(|emails|)
    requires forall j :: 0 <= j < k ==> respond(j) == Status(200)
    ensures Sent(emails, respond, k) == Lo(|emails|, k)
  {
    if k > 0 {
      SentAll(emails, respond, k - 1);
      ChunkSize(emails, k - 1);
    }
  }

  /** When every post is answered with 200, the whole list counts as sent. */
  lemma DeliveredAll(emails: seq<string>, respond: nat -> Response)
    requires forall j :: 0 <= j < NumChunks(|emails|) ==> respond(j) == Status(200)
    ensures Delivered(emails, respond) == |emails|
  {
    SentAll(emails, respond, NumChunks(|emails|));
    NumChunksCeiling(|emails|);
  }

  lemma {:induction false} SentNone(emails: seq<string>, respond: nat -> Response, k: nat)
    requires forall j :: 0 <= j < k ==> respond(j) != Status(200)
    ensures Sent(emails, respond, k) == 0
  {
    if k > 0 {
      SentNone(emails, respond, k - 1);
    }
  }

  /** Error statuses and exceptions add nothing to the total. */
  lemma DeliveredNone(emails: seq<string>, respond: nat -> Response)
    requires forall j :: 0 <= j < NumChunks(|emails|) ==> respond(j) != Status(200)
    ensures Delivered(emails, respond) == 0
  {
    SentNone(emails, respond, NumChunks(|emails|));
  }

  /** The inner loop of send_batch: messages_payload for one slice. */
  method BuildMessages(chunk: seq<string>, alias: string, sender: string, stream: string)
    returns (messages: seq<Message>)
    ensures |messages| == |chunk|
    ensures forall j :: 0 <= j < |chunk| ==> messages[j] == Message(sender, chunk[j], alias, map[], stream)
  {
    messages := [];
    for j := 0 to |chunk|
      invariant |messages| == j
      invariant forall m :: 0 <= m < j ==> messages[m] == Message(sender, chunk[m], alias, map[], stream)
    {
      messages := messages + [Message(sender, chunk[j], alias, map[], stream)];
    }
  }

  /** send_batch with the given sender and message stream. respond(k) is the
      outcome of the k-th post. */
  method SendBatch(emails: seq<string>, alias: string, sender: string, stream: string, respond: nat -> Response)
    returns (total: nat, posted: seq<Payload>)
    ensures posted == Posts(emails, alias, sender, stream)
    ensures total == Delivered(emails, respond)
    ensures total <= |emails|
    ensures emails == [] ==> posted == [] && total == 0
  {
    total := 0;
    posted := [];
    var i := 0;
    while i < |emails|
      invariant i == |posted| * BatchSize
      invariant |posted| == 0 || (|posted| - 1) * BatchSize < |emails|
      invariant |posted| <= NumChunks(|emails|)
      invariant posted == Posts(emails, alias, sender, stream)[..|posted|]
      invariant total == Sent(emails, respond, |posted|)
      decreases |emails| - i
    {
      var k := |posted|;
      NumChunksCeiling(|emails|);
      assert k < NumChunks(|emails|);
      var end := if i + BatchSize < |emails| then i + BatchSize else |emails|;
      var chunk := emails[i..end];
      assert chunk == Chunk(emails, k);
      var messages := BuildMessages(chunk, alias, sender, stream);
      assert messages == Messages(chunk, alias, sender, stream);
      var response := respond(k);
      posted := posted + [Payload(messages)];
      if response == Status(200) {
        total := total + |chunk|;
      }
      i := i + BatchSize;
    }
    RoundsAreChunks(|emails|, |posted|);
  }
}
