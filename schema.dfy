/** The shapes the collection endpoint's XML is decoded into, and the error
    value the fetcher reports. Type names follow the repository's own,
    misspellings included (Rateing, ReqeustError). */
module Schema {
  import opened Decimal
  import opened StrConv

  /** Success document: <items totalitems="..."> with its <item> children. */
  datatype Items = Items(totalNum: string, game: seq<Item>)

  /** One <item>: numbers other than the year arrive as text. */
  datatype Item = Item(id: string, name: string, yearPublished: int64, stats: Stats)

  datatype Stats = Stats(minPlayers: string, maxPlayers: string, playingTime: string, rate: Rateing)

  datatype Rateing = Rateing(score: Bayesaverage)

  datatype Bayesaverage = Bayesaverage(value: string)

  /** Error document: <errors><error><message>...</message></error></errors>. */
  datatype Errors = Errors(error: Error)

  datatype Error = Error(message: string)

  /** The fetcher's error: the request URL, an HTTP status and a message. */
  datatype ReqeustError = ReqeustError(url: string, code: int64, msg: string)

  /** The words the text of a ReqeustError starts with, up to its code. */
  function ErrorPrefix(url: string): string {
    "request " + url + " code "
  }

  /** ReqeustError.Error(): fmt.Sprintf("request %s code %d", URL, Code). */
  function ErrorText(e: ReqeustError): (t: string)
    ensures |t| > |ErrorPrefix(e.url)| && t[..|ErrorPrefix(e.url)|] == ErrorPrefix(e.url)
    ensures t[|ErrorPrefix(e.url)|] == '-' <==> e.code < 0
  {
    ErrorPrefix(e.url) + FormatInt(e.code)
  }

  /** The message plays no part in the text. */
  lemma ErrorTextIgnoresMsg(a: ReqeustError, b: ReqeustError)
    requires a.url == b.url && a.code == b.code
    ensures ErrorText(a) == ErrorText(b)
  {
  }

  /** The code can be read back from the text: what follows the prefix is
      the code's decimal text. */
  lemma ErrorTextCode(e: ReqeustError)
    ensures |ErrorText(e)| > |ErrorPrefix(e.url)|
    ensures ErrorText(e)[..|ErrorPrefix(e.url)|] == ErrorPrefix(e.url)
    ensures Atoi(ErrorText(e)[|ErrorPrefix(e.url)|..]) == IntOk(e.code)
  {
    var p := ErrorPrefix(e.url);
    assert ErrorText(e)[|p|..] == FormatInt(e.code);
    AtoiFormatInt(e.code);
  }

  /** For one URL, distinct codes give distinct texts. */
  lemma ErrorTextCodeInjective(a: ReqeustError, b: ReqeustError)
    requires a.url == b.url && ErrorText(a) == ErrorText(b)
    ensures a.code == b.code
  {
    ErrorTextCode(a);
    ErrorTextCode(b);
  }
}
