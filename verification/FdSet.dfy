/** The set of listener descriptors as it runs (icecreme/mux.c): an array that doubles, with swap-remove. */
module FdSet {
  import opened Util
  import opened Pool

  lemma {:induction false} IndexIs(s: seq<Fd>, fd: Fd, i: nat)
    requires i < |s| && s[i] == fd && fd !in s[..i]
    ensures IndexOf(s, fd) == i
  {
    if i > 0 {
      assert s[0] in s[..i] && s[1..][i - 1] == fd;
      assert s[..i] == [s[0]] + s[1..][..i - 1];
      IndexIs(s[1..], fd, i - 1);
    }
  }

  class FdSet {
    var fds: array<Fd>
    var n: nat

    ghost predicate Valid()
      reads this
    {
      n <= fds.Length
    }

    ghost function View(): seq<Fd>
      requires Valid()
      reads this, fds
    {
      fds[..n]
    }

    constructor ()
      ensures Valid() && View() == [] && fresh(fds)
    {
      fds := new Fd[0];
      n := 0;
    }

    // fdset_add
    method Add(fd: Fd)
      requires Valid()
      modifies this, fds
      ensures Valid() && View() == old(View()) + [fd]
      ensures fds == old(fds) || fresh(fds)
    {
      if n >= fds.Length {
        var bigger := new Fd[if fds.Length == 0 then 8 else 2 * fds.Length];
        for i := 0 to n
          modifies bigger
          invariant n <= fds.Length && bigger[..i] == fds[..i] && fds[..n] == old(fds[..n])
        {
          bigger[i] := fds[i];
        }
        fds := bigger;
      }
      fds[n] := fd;
      n := n + 1;
      assert fds[..n] == fds[..n - 1] + [fd];
    }

    // fdset_remove_and_close; `closed` tells whether close(fd) is called.
    method RemoveAndClose(fd: Fd) returns (closed: bool)
      requires Valid()
      modifies this, fds
      ensures Valid() && fds == old(fds) && closed == (fd in old(View()))
      ensures View() == if closed then SwapRemove(old(View()), fd) else old(View())
    {
      ghost var was := View();
      var i := 0;
      while i < n
        invariant i <= n && n == old(n) && fds == old(fds) && View() == was && fd !in was[..i]
      {
        assert was[i] == fds[i];
        if fds[i] == fd {
          IndexIs(was, fd, i);
          hide IndexOf;
          n := n - 1;
          fds[i] := fds[n];
          assert View() == was[i := was[|was| - 1]][..|was| - 1];
          return true;
        }
        assert was[..i + 1] == was[..i] + [was[i]];
        i := i + 1;
      }
      assert was[..n] == was;
      return false;
    }

    // mux-close!: every descriptor in the set is closed, in order.
    method CloseAll() returns (closed: seq<Fd>)
      requires Valid()
      modifies this
      ensures Valid() && fds == old(fds) && View() == [] && closed == old(View())
    {
      closed := [];
      for i := 0 to n
        invariant Valid() && n == old(n) && fds == old(fds) && closed == fds[..i]
      {
        closed := closed + [fds[i]];
      }
      n := 0;
    }
  }
}
