/** libsyscall/custom/errno.c: the thread-local darling_errno and the cerror routines. */
module ThreadErrors {
  import opened Words

  type Thread = nat

  class Errnos {
    // A thread that has not stored anything still holds the initial 0.
    var stored: map<Thread, Int32>

    constructor ()
      ensures stored == map[]
    {
      stored := map[];
    }

    function Of(t: Thread): Int32
      reads this
    {
      if t in stored then stored[t] else 0
    }

    method SetCerror(t: Thread, err: Int32)
      modifies this
      ensures stored == old(stored)[t := err]
    {
      stored := stored[t := err];
    }

    method GetCerror(t: Thread) returns (err: Int32)
      ensures err == Of(t)
    {
      err := Of(t);
    }

    /** Returns the 128-bit -1, in %rax and %rdx. */
    method CerrorNocancel(t: Thread, err: Int32) returns (low: Word, high: Word)
      modifies this
      ensures stored == old(stored)[t := err]
      ensures low == high == MAX_WORD
    {
      SetCerror(t, err);
      low, high := ToWord(-1), ToWord(-1);
    }

    method Cerror(t: Thread, err: Int32) returns (low: Word, high: Word)
      modifies this
      ensures stored == old(stored)[t := err]
      ensures low == high == MAX_WORD
    {
      low, high := CerrorNocancel(t, err);
    }
  }
}
