/** An output stream. It may fail, unless it is reliable: it then takes as much as it has room for, and stays failed. */
module OutputStreams {

  datatype StreamState = StreamState(reliable: bool, room: nat, text: string, good: bool)

  /** Whether so many characters more can be written. */
  predicate Fits(s: StreamState, n: int) {
    s.good && (s.reliable || n <= s.room)
  }

  /** What becomes of a stream that is given some text. */
  function Taking(s: StreamState, t: string): (after: StreamState)
    ensures after.good <==> Fits(s, |t|)
  {
    if Fits(s, |t|) then s.(text := s.text + t, room := if s.reliable then s.room else s.room - |t|)
    else if s.good then s.(text := s.text + t[..s.room], room := 0, good := false)
    else s
  }

  /** Text given in two pieces, or in one. */
  lemma TakingBoth(s: StreamState, a: string, b: string)
    ensures Taking(Taking(s, a), b) == Taking(s, a + b)
    ensures forall n: int | n >= 0 :: Fits(Taking(s, a), n) <==> Fits(s, |a| + n)
  {
    if Fits(s, |a|) {
      assert s.text + a + b == s.text + (a + b);
      if !Fits(Taking(s, a), |b|) {
        assert (a + b)[..s.room] == a + b[..s.room - |a|];
        assert s.text + a + b[..s.room - |a|] == s.text + (a + b[..s.room - |a|]);
      }
    } else if s.good {
      assert (a + b)[..s.room] == a[..s.room];
    }
  }

  lemma TakingNothing(s: StreamState)
    ensures Taking(s, "") == s
  {
  }

  class OutputStream {
    const reliable: bool
    var text: string
    var good: bool
    /** How much more an unreliable stream will take. */
    var room: nat

    constructor (reliable: bool, room: nat)
      ensures State() == StreamState(reliable, room, "", true)
    {
      this.reliable, text, good, this.room := reliable, "", true, room;
    }

    function State(): StreamState
      reads this
    {
      StreamState(reliable, room, text, good)
    }

    method Put(s: string)
      modifies this
      ensures State() == Taking(old(State()), s)
    {
      if !good { return; }
      if reliable {
        text := text + s;
      } else if |s| <= room {
        text, room := text + s, room - |s|;
      } else {
        text, room, good := text + s[..room], 0, false;
      }
    }
  }
}
