/**
 * The address-check handler of the Bitquery bot (`bot.py`): strip the message,
 * check the address format, ask the provider about the address, and turn the
 * provider's answer into one reply. The Telegram transport and the GraphQL
 * call itself are outside the model; the provider's answer is a parameter.
 */
module Bot {
  import opened Text
  import opened Address

  datatype Option<T> = None | Some(value: T)

  /**
   * The first entry of the provider's `ethereum.address` list, reduced to the
   * two fields the reply reads: the contract type when the address is a smart
   * contract, and the risk annotations (a null list is the empty list).
   */
  datatype AddressInfo = AddressInfo(smartContract: Option<string>, annotations: seq<string>)

  /** What the GraphQL session yields: an exception, or the `ethereum.address` list. */
  datatype ProviderResponse = Raised | Returned(addresses: seq<AddressInfo>)

  /** The final text the user sees for one message; the fixed messages are named, not spelled out. */
  datatype Reply = InvalidFormat | ConnectionError | Clean | Report(text: string)

  const CONTRACT_LABEL: string := "📄 Контракт: "
  const RISKS_LABEL: string := "⚠️ Риски: "

  /**
   * `analyze_address`: the first address record, or nothing when the call
   * raised or the list is empty (indexing `[0]` raises, and every exception
   * is caught and turned into `None`).
   */
  function AnalyzeAddress(response: ProviderResponse): (data: Option<AddressInfo>)
    ensures data.Some? <==> response.Returned? && response.addresses != []
    ensures data.Some? ==> data.value == response.addresses[0]
  {
    match response
    case Raised => None
    case Returned(addresses) => if addresses == [] then None else Some(addresses[0])
  }

  /** The lines `handle_message` collects for a record it got back, in order. */
  function ReportLines(info: AddressInfo): seq<string> {
    (if info.smartContract.Some? then [CONTRACT_LABEL + info.smartContract.value] else [])
    + (if info.annotations != [] then [RISKS_LABEL + Join(info.annotations, ", ")] else [])
  }

  /** The reply to a well-formed address, given what the provider lookup produced. */
  function ReplyFor(data: Option<AddressInfo>): Reply {
    match data
    case None => ConnectionError
    case Some(info) =>
      var lines := ReportLines(info);
      if lines == [] then Clean else Report(Join(lines, "\n"))
  }

  /** The report composer: appends the optional lines one at a time, then joins them. */
  method ComposeReply(data: Option<AddressInfo>) returns (reply: Reply)
    ensures reply == ReplyFor(data)
  {
    if data.None? {
      return ConnectionError;
    }
    var info := data.value;
    var response: seq<string> := [];
    if info.smartContract.Some? {
      response := response + [CONTRACT_LABEL + info.smartContract.value];
    }
    if info.annotations != [] {
      response := response + [RISKS_LABEL + Join(info.annotations, ", ")];
    }
    reply := if response != [] then Report(Join(response, "\n")) else Clean;
  }

  /**
   * `handle_message`: `query` is the address handed to the provider, if any.
   * `lookup` is a pure function, so a call to it cannot be observed; that a
   * malformed address is answered without any lookup, and that a well-formed
   * one is looked up exactly as it was after stripping, is stated through
   * `query`.
   */
  method HandleMessage(text: string, lookup: string -> ProviderResponse) returns (reply: Reply, query: Option<string>)
    ensures query.Some? <==> IsValidAddress(Strip(text))
    ensures query.Some? ==> query.value == Strip(text)
    ensures reply == InvalidFormat <==> query.None?
    ensures query.Some? ==> reply == ReplyFor(AnalyzeAddress(lookup(query.value)))
  {
    var address := Strip(text);
    if !IsValidAddress(address) {
      return InvalidFormat, None;
    }
    query := Some(address);
    var data := AnalyzeAddress(lookup(address));
    reply := ComposeReply(data);
    ReplyCases(data);
  }

  /**
   * A failed provider call never escapes as an error: an exception or an
   * empty address list, and nothing else, ends in the connection-error reply.
   */
  lemma ProviderFailureReported(response: ProviderResponse)
    ensures ReplyFor(AnalyzeAddress(response)) == ConnectionError <==>
      response.Raised? || response.addresses == []
  {
  }

  /** Which of the four replies a lookup result leads to. */
  lemma ReplyCases(data: Option<AddressInfo>)
    ensures ReplyFor(data) != InvalidFormat
    ensures ReplyFor(data) == ConnectionError <==> data.None?
    ensures data.Some? ==>
      (ReplyFor(data) == Clean <==> data.value.smartContract.None? && data.value.annotations == [])
    ensures ReplyFor(data).Report? ==> ReplyFor(data).text == Join(ReportLines(data.value), "\n")
  {
  }

  /**
   * A report has at most two lines. The contract line is there exactly when
   * the record names a smart contract, and then it comes first.
   */
  lemma ContractLineFirst(info: AddressInfo)
    ensures |ReportLines(info)| <= 2
    ensures info.smartContract.Some? <==>
      ReportLines(info) != [] && StartsWith(ReportLines(info)[0], CONTRACT_LABEL)
    ensures info.smartContract.Some? ==>
      ReportLines(info)[0] == CONTRACT_LABEL + info.smartContract.value
  {
    var lines := ReportLines(info);
    if info.smartContract.None? && lines != [] {
      assert lines[0][0] == RISKS_LABEL[0] != CONTRACT_LABEL[0];
    }
  }

  /**
   * The risks line is there exactly when the record carries annotations, and
   * then it is the last line and joins the annotations with ", ".
   */
  lemma RisksLineLast(info: AddressInfo)
    ensures info.annotations != [] <==>
      ReportLines(info) != [] && StartsWith(ReportLines(info)[|ReportLines(info)| - 1], RISKS_LABEL)
    ensures info.annotations != [] ==>
      ReportLines(info)[|ReportLines(info)| - 1] == RISKS_LABEL + Join(info.annotations, ", ")
  {
    var lines := ReportLines(info);
    if info.annotations == [] && lines != [] {
      assert lines[|lines| - 1][0] == CONTRACT_LABEL[0] != RISKS_LABEL[0];
    }
  }

  /**
   * The `k`-th annotation appears, unchanged and in its original position,
   * in the risks line: after the label and the `k` annotations before it,
   * each followed by ", ".
   */
  lemma RisksInOrder(info: AddressInfo, k: nat)
    requires k < |info.annotations|
    ensures var line := ReportLines(info)[|ReportLines(info)| - 1];
      var at := |RISKS_LABEL| + Offset(info.annotations, ", ", k);
      at + |info.annotations[k]| <= |line| && line[at..at + |info.annotations[k]|] == info.annotations[k]
  {
    var joined := Join(info.annotations, ", ");
    var line := RISKS_LABEL + joined;
    RisksLineLast(info);
    JoinPlaces(info.annotations, ", ", k);
    var o := Offset(info.annotations, ", ", k);
    assert line[|RISKS_LABEL|..] == joined;
    assert line[|RISKS_LABEL| + o..|RISKS_LABEL| + o + |info.annotations[k]|]
        == line[|RISKS_LABEL|..][o..o + |info.annotations[k]|];
  }

  /**
   * When neither the contract type nor an annotation contains a line break,
   * the report text splits back, on "\n", into exactly the report lines.
   */
  lemma ReportRoundTrip(info: AddressInfo)
    requires info.smartContract.Some? ==> '\n' !in info.smartContract.value
    requires forall a :: a in info.annotations ==> '\n' !in a
    ensures ReplyFor(Some(info)).Report? ==> Split(ReplyFor(Some(info)).text, '\n') == ReportLines(info)
  {
    var lines := ReportLines(info);
    if lines != [] {
      JoinAvoids(info.annotations, ", ", '\n');
      assert '\n' !in CONTRACT_LABEL && '\n' !in RISKS_LABEL;
      assert forall l :: l in lines ==> '\n' !in l;
      SplitJoin(lines, '\n');
    }
  }
}
