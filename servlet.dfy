/**
 * What the filter touches outside itself: the input stream of a classpath
 * resource, and the servlet response together with the rest of the filter chain.
 */
module Servlet {

  /** The input stream `getResourceAsStream` opens over a resource's bytes. */
  class ResourceStream {
    const content: seq<bv8>
    var position: nat
    var closed: bool

    ghost predicate Valid()
      reads this
    {
      position <= |content|
    }

    /** The bytes not read yet. */
    ghost function Remaining(): seq<bv8>
      reads this
      requires Valid()
    {
      content[position..]
    }

    constructor (content: seq<bv8>)
      ensures Valid() && this.content == content && position == 0 && !closed
    {
      this.content := content;
      position := 0;
      closed := false;
    }

    /**
     * `InputStream.read(byte[])`: 0 for an empty buffer; -1 once every byte has
     * been read; otherwise some bytes, at least one and at most the buffer's
     * length, which may be fewer than are left, copied to the front of the buffer.
     * The rest of the buffer, and all of it when nothing is read, is left as it was.
     */
    method Read(buffer: array<bv8>) returns (len: int)
      requires Valid() && !closed
      modifies this, buffer
      ensures Valid() && !closed
      ensures buffer.Length == 0 ==> len == 0 && position == old(position)
      ensures buffer.Length > 0 && old(position) == |content| ==> len == -1 && position == old(position)
      ensures buffer.Length > 0 && old(position) < |content| ==>
                1 <= len <= buffer.Length && position == old(position) + len &&
                buffer[..len] == content[old(position)..position]
      ensures len >= 1 ==> content[..position] == content[..old(position)] + buffer[..len]
      ensures forall i :: (if len > 0 then len else 0) <= i < buffer.Length ==> buffer[i] == old(buffer[i])
    {
      if buffer.Length == 0 {
        return 0;
      }
      if position == |content| {
        return -1;
      }
      var n :| 1 <= n <= buffer.Length && n <= |content| - position;
      forall i | 0 <= i < n {
        buffer[i] := content[position + i];
      }
      assert content[..position + n] == content[..position] + content[position..position + n];
      position := position + n;
      len := n;
    }

    /** `InputStream.close()`. */
    method Close()
      modifies this
      ensures closed && position == old(position)
    {
      closed := true;
    }
  }

  /** One thing the filter does to the response or to the filter chain. */
  datatype Interaction =
    | SentRedirect(location: string)
    | Wrote(bytes: seq<bv8>)
    | ContinuedChain

  /** The body bytes in a sequence of interactions, in order. */
  function Written(log: seq<Interaction>): (body: seq<bv8>)
  {
    if log == [] then []
    else
      var last := log[|log| - 1];
      Written(log[..|log| - 1]) + (if last.Wrote? then last.bytes else [])
  }

  /** A write adds its bytes to the end of the body. */
  lemma WrittenAfterWrite(log: seq<Interaction>, bytes: seq<bv8>)
    ensures Written(log + [Wrote(bytes)]) == Written(log) + bytes
  {
    assert (log + [Wrote(bytes)])[..|log|] == log;
  }

  /** Every interaction is a write of at least one and at most `max` bytes. */
  ghost predicate WritesOfAtMost(log: seq<Interaction>, max: nat) {
    forall i :: 0 <= i < |log| ==> log[i].Wrote? && 1 <= |log[i].bytes| <= max
  }

  /** `after` is `before` followed by writes of at most `max` bytes each. */
  ghost predicate WritesSince(before: seq<Interaction>, after: seq<Interaction>, max: nat) {
    |after| >= |before| && after[..|before|] == before && WritesOfAtMost(after[|before|..], max)
  }

  /**
   * `after` is `before` followed by writes of at most `max` bytes each, which
   * together are exactly `body`.
   */
  ghost predicate AppendsBody(before: seq<Interaction>, after: seq<Interaction>, body: seq<bv8>, max: nat) {
    WritesSince(before, after, max) && Written(after[|before|..]) == body
  }

  /** One more write of at most `max` bytes keeps `WritesSince` and adds its bytes to the body. */
  lemma WritesSinceAfterWrite(before: seq<Interaction>, log: seq<Interaction>, bytes: seq<bv8>, max: nat)
    requires WritesSince(before, log, max) && 1 <= |bytes| <= max
    ensures WritesSince(before, log + [Wrote(bytes)], max)
    ensures Written((log + [Wrote(bytes)])[|before|..]) == Written(log[|before|..]) + bytes
  {
    var after := log + [Wrote(bytes)];
    assert after[..|before|] == before;
    assert after[|before|..] == log[|before|..] + [Wrote(bytes)];
    WrittenAfterWrite(log[|before|..], bytes);
  }

  /**
   * The servlet response and the rest of the filter chain, as the filter sees
   * them: every redirect, every write to the output stream and every call to
   * `FilterChain.doFilter`, in the order they happen.
   */
  class Exchange {
    var log: seq<Interaction>

    constructor ()
      ensures log == []
    {
      log := [];
    }

    /** `HttpServletResponse.sendRedirect`. */
    method SendRedirect(location: string)
      modifies this
      ensures log == old(log) + [SentRedirect(location)]
    {
      log := log + [SentRedirect(location)];
    }

    /** `ServletOutputStream.write(buffer, off, len)`. */
    method Write(buffer: array<bv8>, off: nat, len: nat)
      requires off + len <= buffer.Length
      modifies this
      ensures log == old(log) + [Wrote(buffer[off..off + len])]
    {
      log := log + [Wrote(buffer[off..off + len])];
    }

    /** `FilterChain.doFilter`: hands the request on to the rest of the chain. */
    method ContinueChain()
      modifies this
      ensures log == old(log) + [ContinuedChain]
    {
      log := log + [ContinuedChain];
    }
  }
}
