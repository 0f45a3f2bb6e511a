/** The device end of a session: transports are foreign code, so a transport is an
  arbitrary source of answers. */
module Transport {
  datatype Response<+B> = Failure | Received(data: seq<B>)

  class Link<Request, B> {
    /** Which writes succeed, and what each read brings. */
    const accepts: nat -> bool
    const respond: nat -> Response<B>

    var sent: seq<Request>
    var answers: nat

    constructor (accepts: nat -> bool, respond: nat -> Response<B>)
      ensures this.accepts == accepts && this.respond == respond
      ensures sent == [] && answers == 0
    {
      this.accepts, this.respond := accepts, respond;
      sent, answers := [], 0;
    }

    /** What the k-th read brings into a buffer of `size`: never more than fits. */
    function Answer(k: nat, size: nat): (r: Response<B>)
      ensures r.Received? ==> |r.data| <= size
    {
      match respond(k)
      case Failure => Failure
      case Received(d) => Received(if |d| <= size then d else d[..size])
    }

    method Write(request: Request) returns (n: int)
      modifies this`sent
      ensures sent == old(sent) + [request]
      ensures n < 0 <==> !accepts(|old(sent)|)
    {
      n := if accepts(|sent|) then 0 else -1;
      sent := sent + [request];
    }

    method Read(buf: array<B>) returns (n: int)
      modifies this`answers, buf
      ensures answers == old(answers) + 1
      ensures match Answer(old(answers), buf.Length)
              case Failure => n < 0 && buf[..] == old(buf[..])
              case Received(d) => n == |d| && buf[..] == d + old(buf[..])[|d|..]
    {
      var answer := Answer(answers, buf.Length);
      answers := answers + 1;
      match answer
      case Failure =>
        n := -1;
      case Received(d) =>
        n := |d|;
        forall i | 0 <= i < |d| {
          buf[i] := d[i];
        }
    }
  }
}
