/** The collection pipeline of interface/boardgamegeek/implement.go: one
    request attempt and how its outcome is classified, the retry loop over
    the service's "still processing" answer, the two-schema decode and the
    item-by-item conversion into games. */
module Pipeline {
  import opened Decimal
  import opened StrConv
  import opened GoFmt
  import opened Schema

  type byte = bv8

  const StatusOK: int64 := 200
  const StatusAccepted: int64 := 202
  const StatusBadGateway: int64 := 502

  // ---------------------------------------------------------------------
  // One attempt: requestXMLAPI

  /** Outcome of http.NewRequestWithContext; url is the request's URL after
      the query has been attached. */
  datatype Construction = Built(url: string) | ConstructFailed(msg: string)

  /** Outcome of client.Do and, for the body, of io.ReadAll. */
  datatype Exchange =
    | DoFailed(msg: string)
    | Response(status: int64, statusText: string, body: ReadOutcome)

  datatype ReadOutcome = ReadOk(data: seq<byte>) | ReadFailed(msg: string)

  /** What one attempt hands to the retry loop: the body, a ReqeustError, or
      an error of some other type. */
  datatype FetchOutcome =
    | Data(bytes: seq<byte>)
    | ReqErr(e: ReqeustError)
    | OtherErr(msg: string)

  /** A construction failure leaves the request nil, and reading its URL to
      build the error value is a nil dereference: the attempt panics. */
  datatype Attempt = Completed(outcome: FetchOutcome) | NilURLPanic

  /** The "still processing, try again" answer. */
  predicate IsPending(o: FetchOutcome) {
    o.ReqErr? && o.e.code == StatusAccepted
  }

  /** requestXMLAPI with its I/O given as inputs. */
  function RequestXMLAPI(c: Construction, x: Exchange): (r: Attempt)
    // The panic happens exactly when the request could not be built.
    ensures r.NilURLPanic? <==> c.ConstructFailed?
    // Every error it builds is a ReqeustError value carrying the request URL.
    ensures r.Completed? ==> !r.outcome.OtherErr?
    ensures r.Completed? && r.outcome.ReqErr? ==> r.outcome.e.url == c.url
    // Data comes back exactly for a 200 whose body was read, and is that body.
    ensures r.Completed? && r.outcome.Data? <==>
      c.Built? && x.Response? && x.status == StatusOK && x.body.ReadOk?
    ensures r.Completed? && r.outcome.Data? ==> r.outcome.bytes == x.body.data
    // A transport failure is reported as 502 with the client's message.
    ensures c.Built? && x.DoFailed? ==> r == Completed(ReqErr(ReqeustError(c.url, StatusBadGateway, x.msg)))
    // Any other status, 202 included, is reported with that status and its text.
    ensures c.Built? && x.Response? && x.status != StatusOK ==>
      r == Completed(ReqErr(ReqeustError(c.url, x.status, x.statusText)))
    // A 200 whose body could not be read keeps code 200 and the read error.
    ensures c.Built? && x.Response? && x.status == StatusOK && x.body.ReadFailed? ==>
      r == Completed(ReqErr(ReqeustError(c.url, StatusOK, x.body.msg)))
  {
    match c
    case ConstructFailed(_) => NilURLPanic
    case Built(url) =>
      match x
      case DoFailed(m) => Completed(ReqErr(ReqeustError(url, StatusBadGateway, m)))
      case Response(status, text, body) =>
        if status == StatusAccepted then Completed(ReqErr(ReqeustError(url, status, text)))
        else if status != StatusOK then Completed(ReqErr(ReqeustError(url, status, text)))
        else
          match body
          case ReadOk(d) => Completed(Data(d))
          case ReadFailed(m) => Completed(ReqErr(ReqeustError(url, status, m)))
  }

  /** An attempt asks for a retry exactly when the service answered 202. */
  lemma RetryOnlyOnAccepted(c: Construction, x: Exchange)
    requires c.Built?
    ensures RequestXMLAPI(c, x).Completed?
    ensures IsPending(RequestXMLAPI(c, x).outcome) <==> x.Response? && x.status == StatusAccepted
  {
  }

  // ---------------------------------------------------------------------
  // Conversion: generateGame and generateCollection

  /** The record handed to callers; the score is whatever ParseFloat gave. */
  datatype Game = Game(
    id: string,
    name: string,
    maxplayers: int64,
    minplayers: int64,
    playingtime: int64,
    score: real,
    yearpublished: string)

  datatype User = User(name: string)

  datatype Collection = Collection(user: User, game: seq<Game>)

  /** strconv.ParseFloat(s, 64), supplied from outside the model. */
  datatype FloatResult = FloatOk(value: real) | FloatErr(error: NumError)

  /** Every error the pipeline can return. */
  datatype GoError =
    | Request(req: ReqeustError)   // from the fetcher
    | Foreign(msg: string)         // a fetch error of any other type
    | Decode(msg: string)          // encoding/xml could not decode the body
    | Remote(text: string)         // fmt.Errorf applied to the service's message
    | Num(num: NumError)           // strconv could not parse a field

  datatype GameResult = GameOk(game: Game) | GameErr(error: GoError)

  /** generateGame: copy id and name, parse MaxPlayers, MinPlayers and
      PlayingTime with Atoi and the score with ParseFloat, stopping at the
      first failure, then render the year with %d. */
  function GenerateGame(item: Item, parseFloat: string -> FloatResult): (r: GameResult)
    ensures r.GameOk? ==> r.game.id == item.id && r.game.name == item.name
    ensures r.GameOk? ==>
      && Atoi(item.stats.maxPlayers) == IntOk(r.game.maxplayers)
      && Atoi(item.stats.minPlayers) == IntOk(r.game.minplayers)
      && Atoi(item.stats.playingTime) == IntOk(r.game.playingtime)
      && parseFloat(item.stats.rate.score.value) == FloatOk(r.game.score)
    ensures r.GameErr? ==> r.error.Num?
  {
    match Atoi(item.stats.maxPlayers)
    case IntErr(e) => GameErr(Num(e))
    case IntOk(maxPlayers) =>
      match Atoi(item.stats.minPlayers)
      case IntErr(e) => GameErr(Num(e))
      case IntOk(minPlayers) =>
        match Atoi(item.stats.playingTime)
        case IntErr(e) => GameErr(Num(e))
        case IntOk(playingTime) =>
          match parseFloat(item.stats.rate.score.value)
          case FloatErr(e) => GameErr(Num(e))
          case FloatOk(score) =>
            GameOk(Game(item.id, item.name, maxPlayers, minPlayers, playingTime, score,
                        FormatInt(item.yearPublished)))
  }

  /** The integer fields in the order generateGame parses them. */
  function IntFields(item: Item): seq<string> {
    [item.stats.maxPlayers, item.stats.minPlayers, item.stats.playingTime]
  }

  /** Index of the first text Atoi rejects, |fields| when it rejects none. */
  function FirstIntFailure(fields: seq<string>): (k: nat)
    ensures k <= |fields|
    ensures forall j :: 0 <= j < k ==> Atoi(fields[j]).IntOk?
    ensures k < |fields| ==> Atoi(fields[k]).IntErr?
  {
    if fields == [] then 0
    else if Atoi(fields[0]).IntErr? then 0
    else 1 + FirstIntFailure(fields[1..])
  }

  /** A game is built exactly when all three integer fields are well-formed
      int64 text and the score parses; its numbers are then the values of
      those texts, id and name are copied and the year reads back with Atoi. */
  lemma GenerateGameOk(item: Item, parseFloat: string -> FloatResult)
    ensures GenerateGame(item, parseFloat).GameOk? <==>
      && IsInt64Text(item.stats.maxPlayers)
      && IsInt64Text(item.stats.minPlayers)
      && IsInt64Text(item.stats.playingTime)
      && parseFloat(item.stats.rate.score.value).FloatOk?
    ensures GenerateGame(item, parseFloat).GameOk? ==>
      var g := GenerateGame(item, parseFloat).game;
      && g.id == item.id && g.name == item.name
      && g.maxplayers == SignedValue(item.stats.maxPlayers)
      && g.minplayers == SignedValue(item.stats.minPlayers)
      && g.playingtime == SignedValue(item.stats.playingTime)
      && g.score == parseFloat(item.stats.rate.score.value).value
      && Atoi(g.yearpublished) == IntOk(item.yearPublished)
  {
    AtoiSpec(item.stats.maxPlayers);
    AtoiSpec(item.stats.minPlayers);
    AtoiSpec(item.stats.playingTime);
    AtoiFormatInt(item.yearPublished);
  }

  /** The error of a failed game is that of the first field, in the order
      MaxPlayers, MinPlayers, PlayingTime, then the score, that does not parse. */
  lemma GenerateGameFirstFailure(item: Item, parseFloat: string -> FloatResult)
    requires GenerateGame(item, parseFloat).GameErr?
    ensures var k := FirstIntFailure(IntFields(item));
      var err := GenerateGame(item, parseFloat).error;
      if k < 3 then err == Num(Atoi(IntFields(item)[k]).error)
      else parseFloat(item.stats.rate.score.value).FloatErr? &&
           err == Num(parseFloat(item.stats.rate.score.value).error)
  {
    var f := IntFields(item);
    assert f[1..][1..] == [f[2]];
    assert f[1..] == [f[1], f[2]];
  }

  /** What generateCollection returns for these items: the user's name, the
      games of the items before the first failing one, in item order, and
      the error of that item if there is one. */
  ghost predicate BuiltFrom(items: Items, name: string, parseFloat: string -> FloatResult,
                            c: Collection, err: Option<GoError>)
  {
    && c.user.name == name
    && |c.game| <= |items.game|
    && (forall i :: 0 <= i < |c.game| ==> GenerateGame(items.game[i], parseFloat) == GameOk(c.game[i]))
    && (err.None? ==> |c.game| == |items.game|)
    && (err.Some? ==> |c.game| < |items.game| &&
                      GenerateGame(items.game[|c.game|], parseFloat) == GameErr(err.value))
  }

  datatype Option<T> = None | Some(value: T)

  /** The collection and error are determined by the items. */
  lemma BuiltFromUnique(items: Items, name: string, parseFloat: string -> FloatResult,
                        c1: Collection, e1: Option<GoError>, c2: Collection, e2: Option<GoError>)
    requires BuiltFrom(items, name, parseFloat, c1, e1) && BuiltFrom(items, name, parseFloat, c2, e2)
    ensures c1 == c2 && e1 == e2
  {
    // The first item either list stops at is one the other converted.
    assert |c1.game| == |c2.game|;
    assert c1.game == c2.game;
  }

  /** The error is absent exactly when every item converts. */
  lemma BuiltFromSucceeds(items: Items, name: string, parseFloat: string -> FloatResult,
                          c: Collection, err: Option<GoError>)
    requires BuiltFrom(items, name, parseFloat, c, err)
    ensures err.None? <==> forall i :: 0 <= i < |items.game| ==> GenerateGame(items.game[i], parseFloat).GameOk?
    ensures err.None? ==> |c.game| == |items.game|
  {
    if err.Some? {
      assert !GenerateGame(items.game[|c.game|], parseFloat).GameOk?;
    }
  }

  /** No items: an empty game list and no error. */
  lemma NoItems(totalNum: string, name: string, parseFloat: string -> FloatResult,
                c: Collection, err: Option<GoError>)
    requires BuiltFrom(Items(totalNum, []), name, parseFloat, c, err)
    ensures c == Collection(User(name), []) && err.None?
  {
  }

  /** generateCollection: a collection for the user with an empty game list,
      then one game per item in order; the first failing item ends the loop
      and its error is returned WITH the games built so far. */
  method GenerateCollection(items: Items, name: string, parseFloat: string -> FloatResult)
    returns (collection: Collection, err: Option<GoError>)
    ensures BuiltFrom(items, name, parseFloat, collection, err)
  {
    collection := Collection(User(name), []);
    err := None;
    for k := 0 to |items.game|
      invariant collection.user.name == name && |collection.game| == k
      invariant forall i :: 0 <= i < k ==> GenerateGame(items.game[i], parseFloat) == GameOk(collection.game[i])
    {
      var r := GenerateGame(items.game[k], parseFloat);
      if r.GameErr? {
        err := Some(r.error);
        return;
      }
      collection := collection.(game := collection.game + [r.game]);
    }
  }

  // ---------------------------------------------------------------------
  // FetchCollection: retry loop, decode fallback, conversion

  /** encoding/xml.Unmarshal into one of the two shapes, supplied from outside. */
  datatype Decoded<T> = Decoded(value: T) | Malformed(msg: string)

  /** The remote side answers the attempts in order; some answer is final. */
  ghost predicate Settles(script: seq<FetchOutcome>) {
    exists i :: 0 <= i < |script| && !IsPending(script[i])
  }

  /** Index of the first answer that is not a 202. */
  ghost function FirstSettled(script: seq<FetchOutcome>): (n: nat)
    requires Settles(script)
    ensures n < |script| && !IsPending(script[n])
    ensures forall j :: 0 <= j < n ==> IsPending(script[j])
  {
    if !IsPending(script[0]) then 0
    else
      assert Settles(script[1..]) by {
        var i :| 0 <= i < |script| && !IsPending(script[i]);
        assert script[1..][i - 1] == script[i];
      }
      1 + FirstSettled(script[1..])
  }

  /** FetchCollection: retry while the answer is a 202 (the one-second sleep
      between attempts is not modelled), return any other error unchanged
      with no collection, decode the body as Items or else as Errors, and
      convert the items. */
  method FetchCollection(name: string, script: seq<FetchOutcome>,
                         decodeItems: seq<byte> -> Decoded<Items>,
                         decodeErrors: seq<byte> -> Decoded<Errors>,
                         parseFloat: string -> FloatResult)
    returns (collection: Option<Collection>, err: Option<GoError>, ghost attempts: nat)
    requires Settles(script)
    // One attempt per leading 202, plus the one that settles.
    ensures attempts == FirstSettled(script) + 1
    // A ReqeustError other than 202 comes back unchanged, with no collection.
    ensures var o := script[FirstSettled(script)];
      o.ReqErr? ==> collection.None? && err == Some(Request(o.e))
    // So does an error of any other type.
    ensures var o := script[FirstSettled(script)];
      o.OtherErr? ==> collection.None? && err == Some(Foreign(o.msg))
    // A body that decodes as Items is converted as generateCollection does.
    ensures var o := script[FirstSettled(script)];
      o.Data? && decodeItems(o.bytes).Decoded? ==>
        collection.Some? && BuiltFrom(decodeItems(o.bytes).value, name, parseFloat, collection.value, err)
    // Otherwise an Errors document fails the call with its message used as a format.
    ensures var o := script[FirstSettled(script)];
      o.Data? && decodeItems(o.bytes).Malformed? && decodeErrors(o.bytes).Decoded? ==>
        collection.None? && err == Some(Remote(Render(decodeErrors(o.bytes).value.error.message)))
    // And when neither shape decodes, the second decode's error is returned.
    ensures var o := script[FirstSettled(script)];
      o.Data? && decodeItems(o.bytes).Malformed? && decodeErrors(o.bytes).Malformed? ==>
        collection.None? && err == Some(Decode(decodeErrors(o.bytes).msg))
  {
    var k := 0;
    while IsPending(script[k])
      invariant 0 <= k < |script|
      invariant forall j :: 0 <= j < k ==> IsPending(script[j])
      invariant exists i :: k <= i < |script| && !IsPending(script[i])
      decreases |script| - k
    {
      k := k + 1;
    }
    attempts := k + 1;
    FirstSettledIsFirst(script, k);
    match script[k] {
      case ReqErr(e) =>
        return None, Some(Request(e)), attempts;
      case OtherErr(m) =>
        return None, Some(Foreign(m)), attempts;
      case Data(data) =>
        match decodeItems(data) {
          case Malformed(_) =>
            match decodeErrors(data) {
              case Malformed(m) =>
                return None, Some(Decode(m)), attempts;
              case Decoded(errors) =>
                return None, Some(Remote(Render(errors.error.message))), attempts;
            }
          case Decoded(items) =>
            var c, e := GenerateCollection(items, name, parseFloat);
            return Some(c), e, attempts;
        }
    }
  }

  /** The first non-202 answer is the one FirstSettled names. */
  lemma {:induction false} FirstSettledIsFirst(script: seq<FetchOutcome>, k: nat)
    requires k < |script| && !IsPending(script[k])
    requires forall j :: 0 <= j < k ==> IsPending(script[j])
    ensures Settles(script) && FirstSettled(script) == k
  {
    if k > 0 {
      FirstSettledIsFirst(script[1..], k - 1);
    }
  }

  /** When the service's message has no '%' (and no seven-digit run), the
      returned error's text is the message itself; otherwise it is not. */
  lemma RemoteTextIsMessage(message: string)
    requires ModestWidths(message)
    ensures Remote(Render(message)).text == message <==> '%' !in message
  {
    RenderIdentityIff(message);
  }
}
