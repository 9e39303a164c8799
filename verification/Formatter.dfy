// The command formatter: an argument vector to the bytes of one request.

module Formatter {
  import opened Bytes
  import opened Resp

  function Argument(a: seq<byte>): seq<byte> {
    [DOLLAR] + Dec(|a|) + CRLF + a + CRLF
  }

  function Arguments(argv: seq<seq<byte>>): seq<byte> {
    if argv == [] then [] else Argument(argv[0]) + Arguments(argv[1..])
  }

  function Header(argc: nat): seq<byte> { [STAR] + Dec(argc) + CRLF }

  function Format(argv: seq<seq<byte>>): seq<byte> { Header(|argv|) + Arguments(argv) }

  lemma {:induction false} ArgumentsAppend(a: seq<seq<byte>>, b: seq<seq<byte>>)
    ensures Arguments(a + b) == Arguments(a) + Arguments(b)
  {
    hide Argument;
    if a == [] {
      assert a + b == b;
    } else {
      ArgumentsAppend(a[1..], b);
      assert (a + b)[1..] == a[1..] + b && (a + b)[0] == a[0];
      ConcatTwice(Argument(a[0]), Arguments(a[1..]), Arguments(b));
    }
  }

  function Bulks(argv: seq<seq<byte>>): (r: seq<Reply>)
    ensures |r| == |argv| && forall i :: 0 <= i < |r| ==> r[i] == Bulk(argv[i])
  {
    seq(|argv|, i requires 0 <= i < |argv| => Bulk(argv[i]))
  }

  /** A request is the wire form of an array of bulk strings, so the reader can decode it. */
  lemma {:induction false} FormatIsPrint(argv: seq<seq<byte>>)
    ensures Format(argv) == Print(Array(Bulks(argv)))
    ensures Printable(Array(Bulks(argv))) && Depth(Array(Bulks(argv))) == 1
  {
    BulksPrint(argv);
  }

  lemma {:induction false} BulksPrint(argv: seq<seq<byte>>)
    ensures Arguments(argv) == PrintAll(Bulks(argv))
    ensures PrintableAll(Bulks(argv)) && DepthAll(Bulks(argv)) == 0
  {
    if argv != [] {
      BulksPrint(argv[1..]);
      assert Bulks(argv)[1..] == Bulks(argv[1..]);
    }
  }

  lemma DecLength(n: nat)
    ensures n >= 10 ==> |Dec(n)| == |Dec(n / 10)| + 1
    ensures n < 10 ==> |Dec(n)| == 1
  {
  }

  lemma FourDigits(n: nat)
    ensures n >= 10000 ==> |Dec(n)| == |Dec(n / 10000)| + 4
    ensures n < 10000 ==> |Dec(n)| == if n < 10 then 1 else if n < 100 then 2 else if n < 1000 then 3 else 4
  {
    hide Dec;
    assert n / 10 / 10 == n / 100 && n / 100 / 10 == n / 1000 && n / 1000 / 10 == n / 10000;
    DecLength(n);
    DecLength(n / 10);
    DecLength(n / 100);
    DecLength(n / 1000);
  }

  /** Counts digits four at a time. */
  method CountDigits(n: nat) returns (result: nat)
    ensures result == |Dec(n)|
  {
    hide Dec;
    var v := n;
    result := 1;
    while true
      invariant result + |Dec(v)| == |Dec(n)| + 1
      decreases v
    {
      FourDigits(v);
      if v < 10 { return result; }
      if v < 100 { return result + 1; }
      if v < 1000 { return result + 2; }
      if v < 10000 { return result + 3; }
      v := v / 10000;
      result := result + 4;
    }
  }

  method BulkLen(len: nat) returns (r: nat)
    ensures r == 1 + |Dec(len)| + 2 + len + 2
  {
    var d := CountDigits(len);
    return 1 + d + 2 + len + 2;
  }

  /** Copies `s` into the buffer at `pos`. */
  method Put(cmd: array<byte>, pos: nat, s: seq<byte>) returns (next: nat)
    requires pos + |s| <= cmd.Length
    modifies cmd
    ensures next == pos + |s|
    ensures cmd[..next] == old(cmd[..pos]) + s
    ensures cmd[next..] == old(cmd[next..])
  {
    forall i | 0 <= i < |s| {
      cmd[pos + i] := s[i];
    }
    next := pos + |s|;
    assert cmd[..pos] == old(cmd[..pos]);
    assert cmd[pos..next] == s;
  }

  method PutArgument(cmd: array<byte>, pos: nat, a: seq<byte>) returns (next: nat)
    requires pos + |Argument(a)| <= cmd.Length
    modifies cmd
    ensures next == pos + |Argument(a)| && cmd[..next] == old(cmd[..pos]) + Argument(a)
  {
    next := Put(cmd, pos, [DOLLAR] + Dec(|a|) + CRLF);
    next := Put(cmd, next, a);
    next := Put(cmd, next, CRLF);
  }

  method TotalLength(argv: seq<seq<byte>>) returns (totlen: nat)
    ensures totlen == |Format(argv)|
  {
    var digits := CountDigits(|argv|);
    totlen := 1 + digits + 2;
    for j := 0 to |argv|
      invariant totlen == |Header(|argv|)| + |Arguments(argv[..j])|
    {
      var bulk := BulkLen(|argv[j]|);
      totlen := totlen + bulk;
      PrefixGrows(argv, j);
    }
    assert argv[..|argv|] == argv;
  }

  /** Sizes the buffer from the argument lengths, then fills exactly that much of it. */
  method FormatCommandArgv(argv: seq<seq<byte>>) returns (target: array<byte>, totlen: nat)
    ensures fresh(target) && target.Length == totlen + 1
    ensures target[..totlen] == Format(argv) && target[totlen] == 0
  {
    hide Header, Argument, Arguments, Format;
    totlen := TotalLength(argv);
    target := new byte[totlen + 1];
    PrefixFits(argv, 0);
    HeaderOnly(argv);
    var pos: nat := Put(target, 0, Header(|argv|));
    for j := 0 to |argv|
      invariant pos <= totlen
      invariant target[..pos] == Header(|argv|) + Arguments(argv[..j])
    {
      PrefixGrows(argv, j);
      PrefixFits(argv, j + 1);
      pos := PutArgument(target, pos, argv[j]);
    }
    WholeRequest(argv);
    target[pos] := 0;
  }

  lemma HeaderOnly(argv: seq<seq<byte>>)
    ensures Header(|argv|) + Arguments(argv[..0]) == Header(|argv|)
  {
  }

  lemma WholeRequest(argv: seq<seq<byte>>)
    ensures Header(|argv|) + Arguments(argv[..|argv|]) == Format(argv)
  {
    assert argv[..|argv|] == argv;
  }

  lemma PrefixFits(argv: seq<seq<byte>>, j: nat)
    requires j <= |argv|
    ensures |Header(|argv|)| + |Arguments(argv[..j])| <= |Format(argv)|
  {
    ArgumentsAppend(argv[..j], argv[j..]);
    assert argv[..j] + argv[j..] == argv;
  }

  lemma PrefixGrows(argv: seq<seq<byte>>, j: nat)
    requires j < |argv|
    ensures Arguments(argv[..j + 1]) == Arguments(argv[..j]) + Argument(argv[j])
  {
    hide Argument;
    ArgumentsAppend(argv[..j], [argv[j]]);
    assert argv[..j + 1] == argv[..j] + [argv[j]];
    assert Arguments([argv[j]]) == Argument(argv[j]);
  }
}
