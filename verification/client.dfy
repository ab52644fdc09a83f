/** The calculator client's side of the file protocol (client.c): it takes exactly four
    command-line arguments (server pid, num1, operation, num2), writes the request text
    "{its pid} {num1} {operation} {num2}" with the operands copied verbatim from its
    arguments, and expects the answer in "{its pid}_toClient.txt". */
module Client {
  import opened Wrappers
  import opened IntText
  import opened Protocol
  import opened Calculator

  /** The request text main builds in client.c:221-229 from its pid and argv; None when argc
      is not 5 (client.c:193-197), after which the client exits without writing anything. */
  function RequestText(pid: int, argv: seq<string>): (r: Option<string>)
    ensures r.Some? <==> |argv| == 5
    ensures r.Some? ==> |r.value| == |IntStr(pid)| + 3 + |argv[2]| + |argv[3]| + |argv[4]|
    ensures r.Some? ==> r.value[..|IntStr(pid)|] == IntStr(pid) && r.value[|IntStr(pid)|] == ' '
  {
    if |argv| != 5 then None
    else Some(IntStr(pid) + " " + argv[2] + " " + argv[3] + " " + argv[4])
  }

  /** The file the signal handler waits for and reads (client.c:67-71): the client's pid in
      decimal, then "_toClient.txt". */
  function ExpectedResponseFile(pid: int): (f: string)
    ensures |f| >= |ResponseSuffix| && f[|f| - |ResponseSuffix|..] == ResponseSuffix
    ensures pid >= 0 ==>
      var name := f[..|f| - |ResponseSuffix|];
      Canonical(name) && ParseNat(name) == pid
  {
    IntStrCases(pid);
    var f := IntStr(pid) + ResponseSuffix;
    assert f[..|f| - |ResponseSuffix|] == IntStr(pid);
    f
  }

  /** Show writes a nonnegative number exactly as intToStr does. */
  lemma ShowNonnegative(n: int)
    requires n >= 0
    ensures Show(n) == IntStr(n)
  {
  }

  /** When the operands on the command line are numerals of a, op and b, the server's
      parseInput reads the client's request text back as the request (pid, a, op, b). */
  lemma RequestRoundTrip(pid: int, serverPid: string, a: int, op: int, b: int)
    requires pid >= 0
    ensures var argv := ["client", serverPid, Show(a), Show(op), Show(b)];
      ParseInput(RequestText(pid, argv).value) == Some(Request(pid, a, op, b))
  {
    var argv := ["client", serverPid, Show(a), Show(op), Show(b)];
    ShowNonnegative(pid);
    assert RequestText(pid, argv).value == Format(Request(pid, a, op, b));
    ParseFormat(Request(pid, a, op, b));
  }

  /** The whole exchange for a well-formed request: the server answers exactly when the
      operation is known and is not a division by zero, the file it writes is the one the
      client waits for, and it holds intToStr of the result. */
  lemma ExchangeAgrees(pid: int, serverPid: string, a: int, op: int, b: int)
    requires pid >= 0
    ensures var argv := ["client", serverPid, Show(a), Show(op), Show(b)];
      var parsed := ParseInput(RequestText(pid, argv).value);
      && parsed.Some?
      && var q := parsed.value;
      var resp := Respond(q.clientPid, q.num1, q.operation, q.num2);
      && (resp.Success? <==> (Add <= op <= Divide && !(op == Divide && b == 0)))
      && (resp.Success? ==>
            && resp.value.file == ExpectedResponseFile(pid)
            && resp.value.content == IntStr(Calculate(a, op, b).value))
  {
    RequestRoundTrip(pid, serverPid, a, op, b);
  }

  /** A negative result is lost: intToStr writes no digits for it, so for 2 - 5 the server
      writes an empty response, and the client receives and prints an empty result instead
      of -3. */
  lemma NegativeResultLost()
    ensures var r := Respond(7, 2, Subtract, 5);
      && r.Success? && r.value.content == ""
      && Calculate(2, Subtract, 5) == Success(-3)
  {
    IntStrCases(-3);
  }

  /** The response with the result written as a signed numeral: a minus sign before the
      digits of a negative result. */
  function SignedRespond(clientPid: int, num1: int, operation: int, num2: int): (r: Result<Response, CalcError>)
    ensures r.Success? <==> Calculate(num1, operation, num2).Success?
  {
    match Calculate(num1, operation, num2)
    case Failure(e) => Failure(e)
    case Success(v) => Success(Response(ResponseFile(clientPid), Show(v)))
  }

  /** The signed response names the same file as the server's and its content reads back as
      the result, whatever its sign. */
  lemma SignedRespondReadsBack(clientPid: int, num1: int, operation: int, num2: int)
    requires SignedRespond(clientPid, num1, operation, num2).Success?
    ensures var r := SignedRespond(clientPid, num1, operation, num2).value;
      && r.file == ResponseFile(clientPid)
      && Atoi(r.content) == Calculate(num1, operation, num2).value
      && (Calculate(num1, operation, num2).value >= 0 ==>
            r.content == Respond(clientPid, num1, operation, num2).value.content)
  {
    AtoiShow(Calculate(num1, operation, num2).value);
  }
}
