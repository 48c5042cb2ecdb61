/** The upload descriptor: the measured S3 bucket host is swapped for our own store by a replacement of equal length. */
module UploadHost {
  import opened Bytes
  import opened Replace

  const PAD: byte := 'a' as int
  const HOST_LENGTH: nat := 48

  /** The bucket host in the measured descriptors. */
  function S3Host(): Blob {
    Text("626727242799-datastore-nex-ecs") + Text(".s3.amazonaws.com/")
  }

  /** All that the arguments below use of the host: one slash, at the end, no colon, and no pad character in front. */
  lemma S3HostShape()
    ensures |S3Host()| == HOST_LENGTH && S3Host()[HOST_LENGTH - 1] == SLASH && S3Host()[0] != PAD
    ensures forall i :: 0 <= i < HOST_LENGTH - 1 ==> S3Host()[i] != SLASH
    ensures forall i :: 0 <= i < HOST_LENGTH ==> S3Host()[i] != COLON
  {
    var bucket, domain := "626727242799-datastore-nex-ecs", ".s3.amazonaws.com/";
    assert forall i :: 0 <= i < 30 ==> bucket[i] != '/' && bucket[i] != ':' && bucket[i] < 256 as char;
    assert forall i :: 0 <= i < 17 ==> domain[i] != '/' && domain[i] != ':' && domain[i] < 256 as char;
  }

  /** Account, bucket and domain. */
  lemma S3HostParts()
    ensures S3Host() == Text("626727242799") + Text("-datastore-nex-ecs") + Text(".s3.amazonaws.com") + [SLASH]
  {
    var bucket, domain := "626727242799-datastore-nex-ecs", ".s3.amazonaws.com/";
    var account, name := "626727242799", "-datastore-nex-ecs";
    assert bucket == account + name;
    assert Text(bucket) == Text(account) + Text(name);
    assert Text(domain) == Text(".s3.amazonaws.com") + [SLASH];
  }

  lemma S3HostIsPrintable()
    ensures forall i :: 0 <= i < |S3Host()| ==> S3Host()[i] >= 32
  {
    var bucket, domain := "626727242799-datastore-nex-ecs", ".s3.amazonaws.com/";
    assert forall i :: 0 <= i < 30 ==> ' ' <= bucket[i] < 256 as char;
    assert forall i :: 0 <= i < 18 ==> ' ' <= domain[i] < 256 as char;
  }

  function Base(hostPort: Blob): Blob {
    hostPort + [SLASH]
  }

  /** Host and slash, cut or padded to the length of the bucket host. */
  function OurHost(hostPort: Blob): (r: Blob)
    ensures |r| == |S3Host()|
  {
    var base := Base(hostPort);
    if |base| >= |S3Host()| then base[..|S3Host()|]
    else base + seq(|S3Host()| - |base|, _ => PAD)
  }

  /** Everything before the first slash. */
  function BeforeSlash(host: Blob): Blob {
    if host == [] || host[0] == SLASH then [] else [host[0]] + BeforeSlash(host[1..])
  }

  lemma {:induction false} BeforeSlashOf(address: Blob, path: Blob)
    requires SLASH !in address && (path == [] || path[0] == SLASH)
    ensures BeforeSlash(address + path) == address
    decreases |address|
  {
    if address == [] {
      assert address + path == path;
    } else {
      assert (address + path)[1..] == address[1..] + path;
      BeforeSlashOf(address[1..], path);
    }
  }

  /**
   What stands before the first slash of the replacement is the configured address exactly when that has at most 48
   bytes, else its first 48. Up to 47 bytes the slash and letters a follow; from 48 bytes on the slash is cut, and what
   follows in the descriptor joins the host.
   */
  lemma OurHostStandsIff(hostPort: Blob)
    requires SLASH !in hostPort
    ensures BeforeSlash(OurHost(hostPort)) == hostPort <==> |hostPort| <= HOST_LENGTH
    ensures |hostPort| > HOST_LENGTH ==> BeforeSlash(OurHost(hostPort)) == hostPort[..HOST_LENGTH]
    ensures |hostPort| < HOST_LENGTH ==> OurHost(hostPort)[|hostPort|] == '/' as int
    ensures forall i :: |hostPort| < i < HOST_LENGTH ==> OurHost(hostPort)[i] == 'a' as int
  {
    S3HostShape();
    var r := OurHost(hostPort);
    if |hostPort| < HOST_LENGTH {
      assert r == hostPort + r[|hostPort|..];
      BeforeSlashOf(hostPort, r[|hostPort|..]);
    } else {
      assert r == hostPort[..HOST_LENGTH] + [];
      BeforeSlashOf(hostPort[..HOST_LENGTH], []);
    }
  }

  function Rewrite(body: Blob, hostPort: Blob): Blob {
    S3HostShape();
    ReplaceAll(body, S3Host(), OurHost(hostPort))
  }

  lemma S3HostUnbordered()
    ensures Unbordered(S3Host())
  {
    S3HostShape();
    var p := S3Host();
    forall k: nat | 0 < k < |p|
      ensures !IsBorder(p, k)
    {
      assert p[..k][k - 1] != SLASH && p[|p| - k..][k - 1] == SLASH;
    }
  }

  /** The swap never moves a byte: the descriptor keeps its length, every host occurrence becomes ours, the rest stays. */
  lemma RewriteInPlace(body: Blob, hostPort: Blob, i: nat)
    ensures |Rewrite(body, hostPort)| == |body|
    ensures OccursAt(body, S3Host(), i) ==> Rewrite(body, hostPort)[i..i + HOST_LENGTH] == OurHost(hostPort)
    ensures i < |body| && !Covered(body, S3Host(), i) ==> Rewrite(body, hostPort)[i] == body[i]
  {
    S3HostShape();
    S3HostUnbordered();
    SameLength(body, S3Host(), OurHost(hostPort));
    if OccursAt(body, S3Host(), i) {
      UnborderedIsIsolated(body, S3Host(), i);
      OccurrenceReplaced(body, S3Host(), OurHost(hostPort), i);
    }
    if i < |body| && !Covered(body, S3Host(), i) {
      UncoveredKept(body, S3Host(), OurHost(hostPort), i);
    }
  }

  /** The configured host and its slash are an ending of the bucket host, such as "com/" or a bare slash. */
  predicate IsHostEnding(hostPort: Blob) {
    |Base(hostPort)| <= |S3Host()| && S3Host()[|S3Host()| - |Base(hostPort)|..] == Base(hostPort)
  }

  /** The part of a too long configured host that is kept ends the way the bucket host begins. */
  ghost predicate CutEndsLikeHost(hostPort: Blob)
    requires |hostPort| >= |S3Host()|
  {
    exists k :: 0 < k < |S3Host()| && EndsWithBeginning(S3Host(), hostPort[..|S3Host()|], k)
  }

  lemma NoPadOverlap(hostPort: Blob, k: nat)
    requires SLASH !in hostPort && 0 < k < |S3Host()| && |Base(hostPort)| <= |S3Host()|
    ensures !EndsWithBeginning(S3Host(), OurHost(hostPort), k)
  {
    S3HostShape();
    var p, r := S3Host(), OurHost(hostPort);
    var n, at := |p|, |hostPort|;
    if n - k <= at {
      assert r[n - k..][at - (n - k)] == SLASH != p[..k][at - (n - k)];
    } else {
      assert r[n - k..][0] == PAD != p[..k][0];
    }
  }

  lemma BeginsLikeEnding(hostPort: Blob, k: nat)
    requires SLASH !in hostPort && 0 < k <= |S3Host()|
    ensures BeginsWithEnding(S3Host(), OurHost(hostPort), k) ==> IsHostEnding(hostPort) && k == |Base(hostPort)|
  {
    S3HostShape();
    var p, r := S3Host(), OurHost(hostPort);
    var n, at := |p|, |hostPort|;
    if at > k - 1 {
      assert r[k - 1] == hostPort[k - 1];
      assert r[..k][k - 1] != p[n - k..][k - 1];
    } else if at < k - 1 {
      assert r[at] == SLASH;
      assert r[..k][at] != p[n - k..][at];
    } else {
      assert r[..k] == Base(hostPort);
    }
  }

  /** Which configurations interlock with the bucket host, for a host without a slash. */
  lemma InterlocksIff(hostPort: Blob)
    requires SLASH !in hostPort
    ensures Interlocks(S3Host(), OurHost(hostPort))
       <==> if |hostPort| < |S3Host()| then IsHostEnding(hostPort) else CutEndsLikeHost(hostPort)
  {
    S3HostShape();
    var p, r := S3Host(), OurHost(hostPort);
    var n := |p|;
    if |hostPort| < n {
      if IsHostEnding(hostPort) {
        var k := |Base(hostPort)|;
        assert r[..k] == Base(hostPort);
        if k == n {
          assert p[0..] == p && r[..n] == r;
        } else {
          assert BeginsWithEnding(p, r, k);
        }
      } else {
        assert p != r by {
          BeginsLikeEnding(hostPort, n);
          assert p[0..] == p && r[..n] == r;
        }
        forall k | 0 < k < n
          ensures !BeginsWithEnding(p, r, k) && !EndsWithBeginning(p, r, k)
        {
          BeginsLikeEnding(hostPort, k);
          NoPadOverlap(hostPort, k);
        }
      }
    } else {
      assert r == hostPort[..n];
      assert p != r by {
        assert r[n - 1] != SLASH;
      }
      forall k | 0 < k < n
        ensures !BeginsWithEnding(p, r, k)
      {
        BeginsLikeEnding(hostPort, k);
      }
    }
  }

  ghost predicate BucketHostLeft(body: Blob, hostPort: Blob) {
    Contains(Rewrite(body, hostPort), S3Host())
  }

  predicate SecondRewriteChanges(body: Blob, hostPort: Blob) {
    Rewrite(Rewrite(body, hostPort), hostPort) != Rewrite(body, hostPort)
  }

  /**
   For every configuration: no descriptor whatsoever shows the bucket host after the rewrite exactly when our host
   and the bucket host do not interlock, and a second rewrite never changes anything exactly when that holds or
   the two hosts are the same.
   */
  lemma NoBucketHostLeftIff(hostPort: Blob)
    ensures (forall body :: !BucketHostLeft(body, hostPort)) <==> !Interlocks(S3Host(), OurHost(hostPort))
    ensures (forall body :: !SecondRewriteChanges(body, hostPort))
       <==> OurHost(hostPort) == S3Host() || !Interlocks(S3Host(), OurHost(hostPort))
  {
    var p, r := S3Host(), OurHost(hostPort);
    S3HostShape();
    S3HostUnbordered();
    NoneSurvivesIff(p, r);
    SettlesIff(p, r);
    if forall body :: !BucketHostLeft(body, hostPort) {
      forall body
        ensures !Survives(body, p, r)
      {
        assert !BucketHostLeft(body, hostPort);
      }
    }
    if forall body :: !SecondRewriteChanges(body, hostPort) {
      forall body
        ensures Settles(body, p, r)
      {
        assert !SecondRewriteChanges(body, hostPort);
      }
    }
    forall body
      ensures !Survives(body, p, r) ==> !BucketHostLeft(body, hostPort)
      ensures Settles(body, p, r) ==> !SecondRewriteChanges(body, hostPort)
    {
    }
  }

  lemma InterlockLeavesBucketHost(hostPort: Blob)
    requires Interlocks(S3Host(), OurHost(hostPort))
    ensures exists body :: BucketHostLeft(body, hostPort)
  {
    NoBucketHostLeftIff(hostPort);
  }

  /** A configuration that leaves the bucket host behind: an address without a port that is an ending of it. */
  lemma EndingLeavesBucketHost()
    ensures exists body :: BucketHostLeft(body, Text("com"))
  {
    S3HostShape();
    var domain := ".s3.amazonaws.com/";
    assert domain[14] == 'c' && domain[15] == 'o' && domain[16] == 'm';
    assert S3Host()[44..] == Base(Text("com"));
    InterlocksIff(Text("com"));
    InterlockLeavesBucketHost(Text("com"));
  }

  /** A whole family: any host of 46 bytes with the default port is cut behind the 6, the digit the bucket host begins with. */
  lemma CutPortLeavesBucketHost(host: Blob)
    requires |host| == 46 && SLASH !in host
    ensures exists body :: BucketHostLeft(body, host + Text(":60078"))
  {
    S3HostShape();
    var port, bucket := ":60078", "626727242799-datastore-nex-ecs";
    var hostPort := host + Text(port);
    assert port[0] == ':' && port[1] == '6' && port[2] == '0' && port[3] == '0' && port[4] == '7' && port[5] == '8';
    assert SLASH !in Text(port);
    assert hostPort[..48][47..] == [ByteOf('6')];
    assert bucket[0] == '6';
    assert S3Host()[..1] == [ByteOf('6')];
    assert EndsWithBeginning(S3Host(), hostPort[..48], 1);
    InterlocksIff(hostPort);
    InterlockLeavesBucketHost(hostPort);
  }

  /** host:port as the default builds it, short enough to keep its slash: the bucket host is gone and stays gone. */
  lemma HostPortIsSafe(hostPort: Blob, body: Blob)
    requires SLASH !in hostPort && COLON in hostPort && |hostPort| < |S3Host()|
    ensures !Contains(Rewrite(body, hostPort), S3Host())
    ensures Rewrite(Rewrite(body, hostPort), hostPort) == Rewrite(body, hostPort)
  {
    S3HostShape();
    InterlocksIff(hostPort);
    var i :| 0 <= i < |hostPort| && hostPort[i] == COLON;
    var start := |S3Host()| - |Base(hostPort)|;
    assert Base(hostPort)[i] == COLON;
    assert S3Host()[start..][i] == S3Host()[start + i] != COLON;
    NoneSurvives(body, S3Host(), OurHost(hostPort));
    assert !Survives(body, S3Host(), OurHost(hostPort)) && Settles(body, S3Host(), OurHost(hostPort));
  }
}
