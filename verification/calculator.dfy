/** The arithmetic of the calculator server's performCalculation (server.c:136-190): the
    operation code selects +, -, * or C's truncating division; division by zero and unknown
    codes are errors after which the server writes no response. A computed result is written
    to "{clientPID}_toClient.txt" as intToStr(result). */
module Calculator {
  import opened Wrappers
  import opened IntText

  const Add := 1
  const Subtract := 2
  const Multiply := 3
  const Divide := 4

  /** C's integer division: the quotient is truncated toward zero, so the remainder takes the
      sign of the dividend. Dafny's own `/` is Euclidean and differs for negative operands. */
  function TruncDiv(a: int, b: int): (q: int)
    requires b != 0
    ensures var r := a - q * b;
      && (if r < 0 then -r else r) < (if b < 0 then -b else b)
      && (r == 0 || (r > 0 <==> a > 0))
  {
    var m := (if a < 0 then -a else a) / (if b < 0 then -b else b);
    TruncRemainder(a, b, m);
    if (a < 0) == (b < 0) then m else -m
  }

  /** With m the quotient of the magnitudes, giving m the sign of a * b leaves a remainder of
      the dividend's sign and less than the divisor in magnitude. */
  lemma TruncRemainder(a: int, b: int, m: int)
    requires b != 0 && m == (if a < 0 then -a else a) / (if b < 0 then -b else b)
    ensures var q := if (a < 0) == (b < 0) then m else -m;
      var r := a - q * b;
      && (if r < 0 then -r else r) < (if b < 0 then -b else b)
      && (r == 0 || (r > 0 <==> a > 0))
  {
    var A: nat := if a < 0 then -a else a;
    var B: nat := if b < 0 then -b else b;
    EuclidMagnitudes(A, B, m);
    QuotientTimesDivisor(a, b, m);
    var q := if (a < 0) == (b < 0) then m else -m;
    SignedRemainder(a, b, a - q * b, A - m * B);
  }

  lemma EuclidMagnitudes(A: nat, B: nat, m: int)
    requires B > 0 && m == A / B
    ensures 0 <= A - m * B < B && m * B >= 0
  {
    assert A == m * B + A % B;
  }

  lemma QuotientTimesDivisor(a: int, b: int, m: int)
    requires b != 0
    ensures var q := if (a < 0) == (b < 0) then m else -m;
      q * b == (if a < 0 then -(m * (if b < 0 then -b else b)) else m * (if b < 0 then -b else b))
  {
  }

  lemma SignedRemainder(a: int, b: int, r: int, rr: int)
    requires b != 0 && 0 <= rr < (if b < 0 then -b else b) && rr <= (if a < 0 then -a else a)
    requires r == (if a < 0 then -rr else rr)
    ensures (if r < 0 then -r else r) < (if b < 0 then -b else b)
    ensures r == 0 || (r > 0 <==> a > 0)
  {
  }

  /** Truncation agrees with Euclidean division when both operands are nonnegative, and
      differs, e.g., at -7 / 2: truncation gives -3, Euclidean division -4. */
  lemma TruncDivVersusEuclid(a: int, b: int)
    requires b != 0
    ensures a >= 0 && b > 0 ==> TruncDiv(a, b) == a / b
    ensures TruncDiv(-7, 2) == -3 && -7 / 2 == -4
    ensures TruncDiv(-a, b) == -TruncDiv(a, b) && TruncDiv(a, -b) == -TruncDiv(a, b)
  {
  }

  /** The truncated quotient is the only integer with a remainder smaller than the divisor in
      magnitude and of the dividend's sign. */
  lemma TruncDivUnique(a: int, b: int, q: int)
    requires b != 0
    requires var r := a - q * b;
      && (if r < 0 then -r else r) < (if b < 0 then -b else b)
      && (r == 0 || (r > 0 <==> a > 0))
    ensures q == TruncDiv(a, b)
  {
    var q0 := TruncDiv(a, b);
    if q != q0 {
      var d := q - q0;
      assert (a - q0 * b) - (a - q * b) == d * b by {
        ProductDifference(q, q0, b);
      }
      MagnitudeAtLeast(d, b);
      CloseRemainders(a, if b < 0 then -b else b, a - q * b, a - q0 * b);
    }
  }

  lemma ProductDifference(q: int, q0: int, b: int)
    ensures q * b - q0 * b == (q - q0) * b
  {
  }

  /** Two remainders of the dividend's sign, both smaller than B in magnitude, are less than
      B apart. */
  lemma CloseRemainders(a: int, B: int, r: int, r0: int)
    requires (if r < 0 then -r else r) < B && (r == 0 || (r > 0 <==> a > 0))
    requires (if r0 < 0 then -r0 else r0) < B && (r0 == 0 || (r0 > 0 <==> a > 0))
    ensures (if r0 - r < 0 then r - r0 else r0 - r) < B
  {
  }

  lemma MagnitudeAtLeast(k: int, b: int)
    requires k != 0 && b != 0
    ensures var p := k * b; (if p < 0 then -p else p) >= (if b < 0 then -b else b)
  {
    var ak := if k < 0 then -k else k;
    var ab := if b < 0 then -b else b;
    assert (if k * b < 0 then -(k * b) else k * b) == ak * ab;
    assert ak * ab >= ab;
  }

  datatype CalcError = DivisionByZero | UnknownOperation(code: int)

  /** The switch of performCalculation. */
  function Calculate(num1: int, operation: int, num2: int): (r: Result<int, CalcError>)
    ensures r.Failure? <==> !(Add <= operation <= Divide) || (operation == Divide && num2 == 0)
    ensures r.Failure? ==> (r.error == DivisionByZero <==> operation == Divide)
  {
    if operation == Add then Success(num1 + num2)
    else if operation == Subtract then Success(num1 - num2)
    else if operation == Multiply then Success(num1 * num2)
    else if operation == Divide then
      if num2 != 0 then Success(TruncDiv(num1, num2)) else Failure(DivisionByZero)
    else Failure(UnknownOperation(operation))
  }

  /** What the operations mean: subtraction undoes addition and the other way round, a
      product divided by a nonzero factor gives the other factor back, and a quotient times
      the divisor falls short of the dividend by a remainder smaller than the divisor and of
      the dividend's sign. */
  lemma CalculateMeaning(a: int, b: int)
    ensures Calculate(Calculate(a, Add, b).value, Subtract, b) == Success(a)
    ensures Calculate(Calculate(a, Subtract, b).value, Add, b) == Success(a)
    ensures b != 0 ==> Calculate(Calculate(a, Multiply, b).value, Divide, b) == Success(a)
    ensures b != 0 ==> var q := Calculate(a, Divide, b).value; var r := a - q * b;
      && (if r < 0 then -r else r) < (if b < 0 then -b else b)
      && (r == 0 || (r > 0 <==> a > 0))
  {
    if b != 0 {
      TruncDivUnique(a * b, b, a);
    }
  }

  const ResponseSuffix := "_toClient.txt"

  /** The name of the response file for a client: intToStr(pid) followed by "_toClient.txt".
      A negative pid leaves the name without digits. */
  function ResponseFile(clientPid: int): (f: string)
    ensures |f| >= |ResponseSuffix| && f[|f| - |ResponseSuffix|..] == ResponseSuffix
    ensures clientPid >= 0 ==>
      var name := f[..|f| - |ResponseSuffix|];
      Canonical(name) && ParseNat(name) == clientPid
    ensures clientPid < 0 <==> f == ResponseSuffix
  {
    IntStrCases(clientPid);
    var f := IntStr(clientPid) + ResponseSuffix;
    assert f[..|f| - |ResponseSuffix|] == IntStr(clientPid);
    f
  }

  datatype Response = Response(file: string, content: string)

  /** performCalculation without the I/O: the file the server creates and the text it writes
      there, or the error after which it writes nothing. */
  function Respond(clientPid: int, num1: int, operation: int, num2: int): (r: Result<Response, CalcError>)
    ensures r.Success? <==> Calculate(num1, operation, num2).Success?
  {
    match Calculate(num1, operation, num2)
    case Failure(e) => Failure(e)
    case Success(v) => Success(Response(ResponseFile(clientPid), IntStr(v)))
  }

  /** The response names the client's file and carries the result's decimal text: the file
      name ends in "_toClient.txt" after the client's pid, and the content parses back to the
      result when it is nonnegative and is empty when it is negative. */
  lemma RespondMeaning(clientPid: int, num1: int, operation: int, num2: int)
    requires Respond(clientPid, num1, operation, num2).Success?
    ensures var r := Respond(clientPid, num1, operation, num2).value;
      var v := Calculate(num1, operation, num2).value;
      && r.file[|r.file| - |ResponseSuffix|..] == ResponseSuffix
      && (clientPid >= 0 ==>
            var name := r.file[..|r.file| - |ResponseSuffix|];
            Canonical(name) && ParseNat(name) == clientPid)
      && (v >= 0 ==> Canonical(r.content) && ParseNat(r.content) == v)
      && (v < 0 ==> r.content == "")
  {
    var r := Respond(clientPid, num1, operation, num2).value;
    IntStrCases(clientPid);
    IntStrCases(Calculate(num1, operation, num2).value);
    assert r.file[..|r.file| - |ResponseSuffix|] == IntStr(clientPid);
  }
}
