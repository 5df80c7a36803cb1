/** The 32 KiB output buffer that the builder overwrites in place, and makeWindow. */
module CircularWindow {
  import opened Prelude
  import opened Deflate
  import opened Zlib

  /** The buffer after `total` bytes of the text, `at` of them since it was last started over: those lie
      at the front; behind them lies the end of the round before, unless this is the first. */
  ghost predicate Holds(w: seq<byte>, at: nat, text: seq<byte>, total: nat) {
    && |w| == WINDOW_SIZE && at <= WINDOW_SIZE && at <= total <= |text|
    && (total > at ==> total - at >= WINDOW_SIZE)
    && (forall j :: 0 <= j < at ==> w[j] == text[total - at + j])
    && (total > at ==> forall j :: at <= j < WINDOW_SIZE ==> w[j] == text[total - at - WINDOW_SIZE + j])
  }

  lemma {:induction false} HoldsAtFirst(w: seq<byte>, text: seq<byte>)
    requires |w| == WINDOW_SIZE
    ensures Holds(w, 0, text, 0)
  {
  }

  lemma {:induction false} HoldsMore(w: seq<byte>, w': seq<byte>, at: nat, text: seq<byte>, total: nat, more: nat)
    requires Holds(w, at, text, total) && at + more <= WINDOW_SIZE && total + more <= |text|
    requires Wrote(w, w', at, text, total, more)
    ensures Holds(w', at + more, text, total + more)
  {
  }

  /** A full buffer has become the round before. */
  lemma {:induction false} HoldsAgain(w: seq<byte>, text: seq<byte>, total: nat)
    requires Holds(w, WINDOW_SIZE, text, total)
    ensures Holds(w, 0, text, total)
    ensures w == text[total - WINDOW_SIZE..total]
  {
  }

  lemma {:induction false} FrontOf(w: seq<byte>, at: nat, text: seq<byte>, total: nat)
    requires Holds(w, at, text, total)
    ensures w[..at] == text[total - at..total]
  {
  }

  /** makeWindow: the buffer in the order in which it was written, oldest first. Compressing the result
      and uncompressing it again is the identity. */
  method MakeWindow(window: array<byte>, left: nat) returns (temp: seq<byte>)
    requires window.Length == WINDOW_SIZE && left <= WINDOW_SIZE
    ensures temp == window[WINDOW_SIZE - left..] + window[..WINDOW_SIZE - left]
  {
    temp := [];
    if left > 0 {
      temp := window[WINDOW_SIZE - left..];
    }
    if left < WINDOW_SIZE {
      temp := temp + window[..WINDOW_SIZE - left];
    }
  }

  /** What makeWindow returns recalls the text since any point, whatever older or arbitrary bytes the
      buffer still holds. */
  lemma {:induction false} WindowRecalls(w: seq<byte>, at: nat, text: seq<byte>, total: nat, base: nat)
    requires Holds(w, at, text, total) && base <= total
    ensures Recalls(w[at..] + w[..at], text[base..total])
  {
    var temp, hist := w[at..] + w[..at], text[base..total];
    forall k | 1 <= k <= |hist| && k <= WINDOW_SIZE
      ensures Back(temp, k) == Back(hist, k)
    {
      assert Back(hist, k) == text[total - k];
      if k <= at {
        assert Back(temp, k) == w[at - k];
      } else {
        assert Back(temp, k) == w[at + WINDOW_SIZE - k];
      }
    }
  }
}
