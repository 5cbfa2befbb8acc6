/** The load command: an image arrives in chunks, and its last chunk hands it to the loader. */
module ImageReceive {
  import opened Words
  import opened Wrappers
  import opened Pools
  import Imports
  import LoadSpec
  import DllLoader
  import CommandGrammar
  import CommandParser

  datatype Reply = ParseError(code: int) | Fail | AccessDenied | SendBinary | Unexpected | Ok

  // ---------- Chunks ----------

  function Concat(chunks: seq<Bytes>): (r: Bytes)
    ensures |chunks| > 0 && chunks[0] != [] ==> r != []
  {
    if chunks == [] then [] else chunks[0] + Concat(chunks[1..])
  }

  ghost predicate NonEmptyChunks(chunks: seq<Bytes>) {
    forall i :: 0 <= i < |chunks| ==> chunks[i] != []
  }

  lemma {:induction false} ConcatGrows(chunks: seq<Bytes>, i: nat)
    requires i < |chunks|
    ensures Concat(chunks[..i + 1]) == Concat(chunks[..i]) + chunks[i]
    ensures |Concat(chunks[..i + 1])| <= |Concat(chunks)|
    ensures NonEmptyChunks(chunks) && i + 1 < |chunks| ==> |Concat(chunks[..i + 1])| < |Concat(chunks)|
  {
    if i == 0 {
      assert chunks[..1][1..] == [] && chunks[..0] == [];
      assert NonEmptyChunks(chunks) && 1 < |chunks| ==> Concat(chunks[1..]) != [];
    } else {
      ConcatGrows(chunks[1..], i - 1);
      assert chunks[..i + 1][1..] == chunks[1..][..i] && chunks[..i][1..] == chunks[1..][..i - 1];
    }
  }

  // ---------- The command context ----------

  /** What is kept between the chunks of one load. */
  class ReceiveImageDataContext {
    var imageBase: array?<Byte>
    var rawImageSize: Dword

    constructor () {
      imageBase, rawImageSize := null, 0;
    }
  }

  class CommandContext {
    /** XBDM writes received data at `bufferAt` in `buffer`. */
    var buffer: array?<Byte>
    var bufferAt: int
    var bufferSize: int
    var bytesRemaining: int
    var dataSize: nat
    var userData: ReceiveImageDataContext?
    /** How often the loader has been run. */
    ghost var completions: nat

    constructor () {
      buffer, bufferAt, bufferSize, bytesRemaining, dataSize, userData := null, 0, 0, 0, 0, null;
      completions := 0;
    }

    /** A load is under way: `received` has arrived, and everything live beyond `others` is the block for it. */
    ghost predicate Receiving(pool: Pool, received: Bytes, others: set<object>)
      reads this, userData, buffer, pool
    {
      && userData != null && buffer != null && userData.imageBase == buffer && userData.rawImageSize == buffer.Length
      && bufferSize == bytesRemaining == buffer.Length - |received|
      && bufferAt == |received| <= buffer.Length
      && buffer[..bufferAt] == received
      && buffer !in others && pool.live == others + {buffer}
    }

    /** Parses the command and asks for its image to be sent. */
    method HandleDynamicLoad(pool: Pool, command: CommandGrammar.Text, strtoul: string -> CommandParser.Number,
                             store: ReceiveImageDataContext,
                             ghost others: set<object>)
      returns (reply: Reply)
      requires pool.live == others && !CommandGrammar.Parse(command).Overrun?
      modifies this, store, pool
      ensures reply != SendBinary ==> pool.live == others
      ensures reply == SendBinary ==> userData == store && fresh(buffer) && Receiving(pool, [], others)
      ensures var parsed := old(pool.requests) + CommandParser.Requests(command);
              var request := SizeRequest(command, strtoul, pool.Granted(old(pool.requests), parsed));
              if !request.Size? then reply == request.reply
              else if pool.address(parsed) == 0 then reply == AccessDenied
              else reply == SendBinary && buffer.Length == request.size
    {
      hide CommandParser.Requests, SizeRequest;
      var request := ReadSize(pool, command, strtoul, others);
      if request.Refused? {
        return request.reply;
      }
      var allocation := pool.AllocBytes(request.size);
      if allocation == null {
        return AccessDenied;
      }
      store.imageBase, store.rawImageSize := allocation, request.size;
      buffer, bufferAt, bufferSize := allocation, 0, request.size;
      userData := store;
      bytesRemaining := request.size;
      reply := SendBinary;
    }

    /** Handles the chunk that XBDM has just written: moves on, or runs the loader when it was the last. */
    method ReceiveImageData(pool: Pool, resolver: Imports.Resolver,
                            ghost received: Bytes, ghost chunk: Bytes, ghost others: set<object>)
      returns (reply: Reply, entered: Option<Dword>, image: array?<Byte>)
      requires Receiving(pool, received, others)
      requires dataSize == |chunk| <= bytesRemaining && buffer[bufferAt..bufferAt + dataSize] == chunk
      requires 0 < dataSize == bytesRemaining ==>
                 !LoadSpec.Load(received + chunk, resolver, DllLoader.GrantsAt(pool, pool.requests)).LoadUndefined?
      modifies this`bufferAt, this`bufferSize, this`bytesRemaining, this`completions, pool
      ensures dataSize < old(bytesRemaining) || dataSize == 0 ==>
                && reply == (if dataSize == 0 then Unexpected else Ok) && entered == None && image == null
                && Receiving(pool, received + chunk, others)
                && completions == old(completions) && pool.requests == old(pool.requests)
      ensures 0 < dataSize == old(bytesRemaining) ==>
                && bytesRemaining == 0 && completions == old(completions) + 1
                && HasOutcome(LoadSpec.Load(received + chunk, resolver, DllLoader.GrantsAt(pool, old(pool.requests))),
                              reply, entered, image, pool, others)
    {
      hide LoadSpec.Load;
      entered, image := None, null;
      if dataSize == 0 {
        assert received + chunk == received;
        return Unexpected, entered, image;
      }
      bufferAt := bufferAt + dataSize;
      bufferSize := bufferSize - dataSize;
      bytesRemaining := bytesRemaining - dataSize;
      assert buffer[..bufferAt] == received + chunk;
      if bytesRemaining != 0 {
        return Ok, entered, image;
      }
      assert buffer[..] == received + chunk;
      completions := completions + 1;
      reply, entered, image := ReceiveImageDataComplete(pool, userData, resolver, others);
    }

    /** XBDM receives a chunk into the buffer and calls the handler. */
    method Deliver(pool: Pool, chunk: Bytes, resolver: Imports.Resolver, ghost received: Bytes,
                   ghost others: set<object>)
      returns (reply: Reply, entered: Option<Dword>, image: array?<Byte>)
      requires Receiving(pool, received, others) && chunk != [] && |chunk| <= bytesRemaining
      requires |chunk| == bytesRemaining ==>
                 !LoadSpec.Load(received + chunk, resolver, DllLoader.GrantsAt(pool, pool.requests)).LoadUndefined?
      modifies this`dataSize, this`bufferAt, this`bufferSize, this`bytesRemaining, this`completions, buffer, pool
      ensures |chunk| < old(bytesRemaining) ==>
                && reply == Ok && entered == None && image == null
                && Receiving(pool, received + chunk, others)
                && completions == old(completions) && pool.requests == old(pool.requests)
      ensures |chunk| == old(bytesRemaining) ==>
                && bytesRemaining == 0 && completions == old(completions) + 1
                && HasOutcome(LoadSpec.Load(received + chunk, resolver, DllLoader.GrantsAt(pool, old(pool.requests))),
                              reply, entered, image, pool, others)
    {
      hide LoadSpec.Load;
      for k := 0 to |chunk|
        invariant buffer[..bufferAt] == received && buffer[bufferAt..bufferAt + k] == chunk[..k]
        modifies buffer
      {
        buffer[bufferAt + k] := chunk[k];
      }
      dataSize := |chunk|;
      reply, entered, image := ReceiveImageData(pool, resolver, received, chunk, others);
    }

    /**
      A whole transfer, in any chunks: the loader runs once, on the last chunk, and its outcome is that of loading
      the concatenation.
    */
    method ReceiveAll(pool: Pool, chunks: seq<Bytes>, resolver: Imports.Resolver, ghost others: set<object>)
      returns (replies: seq<Reply>, entered: Option<Dword>, image: array?<Byte>)
      requires Receiving(pool, [], others) && chunks != [] && NonEmptyChunks(chunks)
               && |Concat(chunks)| <= bytesRemaining
      requires |Concat(chunks)| == bytesRemaining ==>
                 !LoadSpec.Load(Concat(chunks), resolver, DllLoader.GrantsAt(pool, pool.requests)).LoadUndefined?
      modifies this`dataSize, this`bufferAt, this`bufferSize, this`bytesRemaining, this`completions, buffer, pool
      ensures |replies| == |chunks| && forall i :: 0 <= i < |chunks| - 1 ==> replies[i] == Ok
      ensures |Concat(chunks)| < old(bytesRemaining) ==>
                && replies[|chunks| - 1] == Ok && Receiving(pool, Concat(chunks), others)
                && completions == old(completions)
      ensures |Concat(chunks)| == old(bytesRemaining) ==>
                && bytesRemaining == 0 && completions == old(completions) + 1
                && HasOutcome(LoadSpec.Load(Concat(chunks), resolver, DllLoader.GrantsAt(pool, old(pool.requests))),
                              replies[|chunks| - 1], entered, image, pool, others)
    {
      hide LoadSpec.Load, Concat;
      replies, entered, image := [], None, null;
      var i := 0;
      ghost var total := bytesRemaining;
      assert chunks[..0] == [] && chunks[..|chunks|] == chunks;
      EmptyConcat();
      while i < |chunks|
        invariant i <= |chunks| == i + |chunks[i..]| && |replies| == i
        invariant forall j :: 0 <= j < i && j < |chunks| - 1 ==> replies[j] == Ok
        invariant |Concat(chunks[..i])| < total || i < |chunks| ==>
                    && Receiving(pool, Concat(chunks[..i]), others) && completions == old(completions)
                    && pool.requests == old(pool.requests) && (i > 0 ==> replies[i - 1] == Ok)
        invariant i == |chunks| && |Concat(chunks)| == total ==>
                    && bytesRemaining == 0 && completions == old(completions) + 1
                    && HasOutcome(LoadSpec.Load(Concat(chunks), resolver, DllLoader.GrantsAt(pool, old(pool.requests))),
                                  replies[i - 1], entered, image, pool, others)
      {
        ConcatGrows(chunks, i);
        var reply;
        reply, entered, image := Deliver(pool, chunks[i], resolver, Concat(chunks[..i]), others);
        replies := replies + [reply];
        i := i + 1;
      }
    }

    /**
      A transfer of no bytes, which the load command grants like any other, never runs the loader, however often the
      handler is called: `ReceiveAll` completes a transfer of every other size, and frees its block.
    */
    method ReceiveNothing(pool: Pool, calls: nat, resolver: Imports.Resolver, ghost others: set<object>)
      returns (replies: seq<Reply>)
      requires Receiving(pool, [], others) && buffer.Length == 0 && dataSize <= bytesRemaining
      modifies this`bufferAt, this`bufferSize, this`bytesRemaining, this`completions, pool
      ensures |replies| == calls && forall i :: 0 <= i < calls ==> replies[i] == Unexpected
      ensures Receiving(pool, [], others) && pool.live == others + {buffer}
      ensures completions == old(completions) && pool.requests == old(pool.requests)
    {
      replies := [];
      while |replies| < calls
        invariant |replies| <= calls && forall i :: 0 <= i < |replies| ==> replies[i] == Unexpected
        invariant Receiving(pool, [], others) && completions == old(completions) && pool.requests == old(pool.requests)
      {
        var reply, _, _ := ReceiveImageData(pool, resolver, [], [], others);
        replies := replies + [reply];
      }
    }
  }

  lemma EmptyConcat()
    ensures Concat([]) == []
  {
  }

  /** What a finished transfer reports and leaves allocated: the image alone on success, nothing on failure. */
  ghost predicate HasOutcome(r: LoadSpec.LoadOutcome, reply: Reply, entered: Option<Dword>, image: array?<Byte>,
                             pool: Pool, others: set<object>)
    reads image, pool
  {
    match r
    case Loaded(m) =>
      && reply == Ok && entered == Some(m.entrypoint)
      && image != null && image[..] == m.image
      && image !in others && pool.live == others + {image}
    case Failed(_, _) => reply == Fail && entered == None && image == null && pool.live == others
    case LoadUndefined => false
  }

  /** Loads the received image and frees the block it was received in, whatever comes of it. */
  method ReceiveImageDataComplete(pool: Pool, store: ReceiveImageDataContext, resolver: Imports.Resolver,
                                  ghost others: set<object>)
    returns (reply: Reply, entered: Option<Dword>, image: array?<Byte>)
    requires store.imageBase != null && store.imageBase !in others && pool.live == others + {store.imageBase}
    requires !LoadSpec.Load(store.imageBase[..], resolver, DllLoader.GrantsAt(pool, pool.requests)).LoadUndefined?
    modifies pool
    ensures HasOutcome(LoadSpec.Load(store.imageBase[..], resolver, DllLoader.GrantsAt(pool, old(pool.requests))),
                       reply, entered, image, pool, others)
    ensures image != null ==> fresh(image)
  {
    hide LoadSpec.Load;
    entered, image := None, null;
    var ctx := new DllLoader.DllContext(pool, store.imageBase, resolver);
    var ok := ctx.DLLLoad(others + {store.imageBase});
    if !ok {
      ctx.DLLFreeContext(false);
      pool.Free(store.imageBase);
      return Fail, entered, image;
    }
    // The image has been copied out of it.
    pool.Free(store.imageBase);
    entered := Some(ctx.entrypoint);
    ctx.DLLFreeContext(true);
    image := ctx.image;
    reply := Ok;
  }

  datatype Request = Refused(reply: Reply) | Size(size: Dword)

  /** What a load command asks for: the number in its first `size` parameter. */
  function SizeRequest(command: string, strtoul: string -> CommandParser.Number, granted: bool): (r: Request)
    requires !CommandGrammar.Parse(command).Overrun?
    ensures r.Refused? ==> r.reply != SendBinary
  {
    var outcome := CommandGrammar.Parse(command);
    if !granted then Refused(ParseError(CommandGrammar.OUT_OF_MEMORY))
    else if outcome.Rejected? then Refused(ParseError(outcome.code))
    else
      match CommandParser.NumberParameter(outcome.entries, "size", strtoul)
      case None => Refused(Fail)
      case Some(size) => Size(size)
  }

  /** The command `key=v` asks for what strtoul reads from `v`, if that is all of it and the key is `size`. */
  lemma SizeIsAsked(key: string, v: string, strtoul: string -> CommandParser.Number)
    requires CommandGrammar.ValidKey(key) && v != [] && ' ' !in v && CommandGrammar.NUL !in v && v[0] != '"'
    ensures CommandGrammar.Parse(key + ("=" + v)) == CommandGrammar.Parsed([CommandGrammar.Entry(key, Some(v))])
    ensures SizeRequest(key + ("=" + v), strtoul, true)
            == if key == "size" && strtoul(v).length == |v| then Size(strtoul(v).value) else Refused(Fail)
  {
    var e := CommandGrammar.Entry(key, Some(v));
    OneEntry(e);
    hide CommandGrammar.Parse;
    assert CommandGrammar.FirstMatch([e][1..], "size") == None;
  }

  lemma OneEntry(e: CommandGrammar.Entry)
    requires CommandGrammar.ValidEntry(e) && CommandGrammar.Spells(CommandGrammar.Plain, e)
    ensures CommandGrammar.Parse(e.key + ("=" + e.value.value)) == CommandGrammar.Parsed([e])
  {
    hide CommandGrammar.Parse;
    var items := [CommandGrammar.Item(e, CommandGrammar.Plain, 0)];
    CommandGrammar.RoundTrip(0, items);
    assert items[1..] == [];
    assert CommandGrammar.Spaces(0) + CommandGrammar.Render(items) == e.key + ("=" + e.value.value);
    assert CommandGrammar.Entries(items) == [e];
  }

  /** For instance 0x100. */
  lemma HexSizeIsAsked(strtoul: string -> CommandParser.Number)
    requires strtoul("0x100") == CommandParser.Number(0x100, 5)
    ensures CommandGrammar.Parse("size=0x100")
            == CommandGrammar.Parsed([CommandGrammar.Entry("size", Some("0x100"))])
    ensures SizeRequest("size=0x100", strtoul, true) == Size(0x100)
  {
    hide CommandGrammar.Parse, SizeRequest;
    SizeIsAsked("size", "0x100", strtoul);
    assert "size" + ("=" + "0x100") == "size=0x100";
  }

  /** Parses the command for its size and frees every parameter again. */
  method ReadSize(pool: Pool, command: CommandGrammar.Text, strtoul: string -> CommandParser.Number,
                  ghost others: set<object>) returns (request: Request)
    requires pool.live == others && !CommandGrammar.Parse(command).Overrun?
    modifies pool
    ensures pool.live == others
    ensures var parsed := old(pool.requests) + CommandParser.Requests(command);
            && request == SizeRequest(command, strtoul, pool.Granted(old(pool.requests), parsed))
            && (request.Size? ==> pool.requests == parsed)
  {
    hide CommandGrammar.Parse, CommandParser.NumberParameter, CommandParser.Requests;
    var cp := new CommandParser.CommandParameters();
    var code := CommandParser.CPParseCommandParameters(pool, Some(command), cp, others);
    if code < 0 {
      return Refused(ParseError(code));
    }
    ghost var es := CommandGrammar.Parse(command).entries;
    EntriesAreText(command);
    var found, size := CommandParser.CPGetUInt32(Some("size"), cp, strtoul, es);
    cp.CPDelete(pool, others);
    request := if found then Size(size) else Refused(Fail);
  }

  lemma EntriesAreText(command: CommandGrammar.Text)
    requires CommandGrammar.Parse(command).Parsed?
    ensures var es := CommandGrammar.Parse(command).entries;
            CommandParser.KeysAreText(es) && forall i :: 0 <= i < |es| && es[i].value.Some? ==>
              CommandGrammar.NUL !in es[i].value.value
  {
    hide CommandGrammar.ParseEntries;
    CommandGrammar.ParsedIsValid(CommandGrammar.SkipSpaces(command));
  }
}
