/** A whole download: an image in packets, from the start to the flag. */
module FwSession {
  import opened Common
  import opened Crc32
  import opened Flash
  import opened FwDownload
  import opened FwUpgrade

  /** The bytes of the packets that are taken. */
  function Image(packets: seq<seq<bv8>>, size: nat): (r: seq<bv8>)
    ensures |r| <= size
  {
    var all := Joined(packets);
    if |all| > size then all[..size] else all
  }

  predicate AllAccepted(packets: seq<seq<bv8>>, size: nat) {
    packets == [] ||
    (AllAccepted(packets[..|packets| - 1], size) &&
     Accepts(|Image(packets[..|packets| - 1], size)|, size, |packets[|packets| - 1]|))
  }

  /** Every packet but the last is a whole number of words. */
  predicate WholeWords(packets: seq<seq<bv8>>) {
    forall i :: 0 <= i < |packets| - 1 ==> |packets[i]| % 4 == 0
  }

  /** Every packet has bytes and starts before the announced size is reached. */
  predicate AllNeeded(packets: seq<seq<bv8>>, size: nat) {
    forall i :: 0 <= i < |packets| ==> packets[i] != [] && |Joined(packets[..i])| < size
  }

  lemma {:induction false} WholeWordsJoin(packets: seq<seq<bv8>>)
    requires forall i :: 0 <= i < |packets| ==> |packets[i]| % 4 == 0
    ensures |Joined(packets)| % 4 == 0
  {
    if packets != [] { WholeWordsJoin(packets[..|packets| - 1]); }
  }

  /** Any split of an image into packets of whole words, except the last, is accepted. */
  lemma {:induction false} WholeWordsAccepted(packets: seq<seq<bv8>>, size: nat)
    requires WholeWords(packets) && AllNeeded(packets, size)
    ensures AllAccepted(packets, size)
  {
    if packets != [] {
      var n := |packets| - 1;
      var front := packets[..n];
      forall i | 0 <= i < |front| ensures front[i] != [] && |Joined(front[..i])| < size {
        assert front[..i] == packets[..i];
      }
      WholeWordsAccepted(front, size);
      WholeWordsJoin(front);
      assert packets[..n] == front;
    }
  }

  lemma ImageGrows(front: seq<seq<bv8>>, packet: seq<bv8>, size: nat)
    requires |Image(front, size)| < size
    ensures Image(front + [packet], size) == Image(front, size) + packet[..Taken(|Image(front, size)|, size, |packet|)]
  {
    assert (front + [packet])[..|front + [packet]| - 1] == front;
    assert Joined(front + [packet]) == Joined(front) + packet;
  }

  /** Whether the tail can be written is decided by the word that is there before the download. */
  lemma TailDecidedBefore(base: seq<bv32>, data: seq<bv8>)
    requires |base| == WORDS && |data| <= PARTITION
    ensures TailWorks(Run(base, DownloadOps(data, |data| / 4)), data) == TailWorks(base, data)
  {
    hide DataWord, DownloadOps, Run;
    var n := |data| / 4;
    DownloadLeaves(base, data, n);
    if |data| % 4 != 0 && n % SECTOR_WORDS == 0 {
      SectorBounds(n);
      assert BACKUP + n < WORDS;
    }
  }

  /** The exception: the tail can be written over every stale content exactly when it does not start
      a sector, that is, when the size exceeds a multiple of the sector size by 0 or by 4 and more. */
  lemma TailAlwaysWorksIff(data: seq<bv8>)
    requires |data| <= PARTITION
    ensures (forall words: seq<bv32> :: |words| == WORDS ==> TailWorks(words, data)) <==> !(0 < |data| % SECTOR < 4)
  {
    hide DataWord;
    var n := |data| / 4;
    if 0 < |data| % SECTOR < 4 {
      assert |data| % 4 != 0 && n % SECTOR_WORDS == 0;
      var stale := OtherWord(DataWord(data, n));
      var words := seq(WORDS, _ => stale);
      assert !TailWorks(words, data);
    }
  }

  /** A word that is neither erased nor the given one. */
  function OtherWord(w: bv32): (r: bv32)
    ensures r != w && r != ERASED
  {
    if w == 0 then 1 else 0
  }

  /** Outside the exception the tail, too, is programmed once into an erased sector. */
  lemma SessionIsDisciplined(data: seq<bv8>)
    requires |data| <= PARTITION && !(0 < |data| % SECTOR < 4)
    ensures Disciplined(DownloadOps(data, |data| / 4) + TailOps(data))
  {
    hide DataWord, Disciplined, Touches, DownloadOps;
    var n := |data| / 4;
    var ops := DownloadOps(data, n);
    DownloadIsDisciplined(data, n);
    if |data| % 4 == 0 {
      assert ops + [] == ops;
    } else {
      assert n % SECTOR_WORDS != 0;
      InErasedSector(ops, n);
      ProgramNext(ops, n, DataWord(data, n));
    }
  }

  /** The operations of a successful download. */
  function SessionOps(image: seq<bv8>, size: bv32): (ops: seq<Op>)
    requires |image| <= PARTITION
    ensures AllInRange(ops)
  {
    DownloadOps(image, |image| / 4) + (TailOps(image) + FlagOps(size, Crc(image)))
  }

  /** The packets of a started update. */
  method ReceiveAll(u: Upgrade, packets: seq<seq<bv8>>) returns (ok: bool)
    requires u.Valid() && u.state == Receiving && u.got == []
    requires forall i :: 0 <= i < |packets| ==> |packets[i]| < 0xF000_0000
    modifies u, u.chip, u.wbuf
    ensures u.Valid() && ok == AllAccepted(packets, old(u.Size()))
    ensures ok ==> u.state == Receiving && u.got == Image(packets, old(u.Size()))
    ensures ok ==> u.fwSize == old(u.fwSize) && u.base == old(u.base) && u.startLog == old(u.startLog)
  {
    hide BitCrc, Run, StrayOps, DownloadOps, Image, AllAccepted, Upgrade.Stored, Upgrade.BufferedAt, Upgrade.Size;
    ok := true;
    ghost var size := u.Size();
    var i := 0;
    assert packets[..0] == [];
    NothingReceived(size);
    while i < |packets|
      invariant i <= |packets| && u.Valid() && u.state == Receiving && AllAccepted(packets[..i], size)
      invariant u.got == Image(packets[..i], size) && u.Size() == size
      invariant u.fwSize == old(u.fwSize) && u.base == old(u.base) && u.startLog == old(u.startLog)
    {
      AcceptNext(packets, i, size);
      ok := u.WriteData(packets[i]);
      if !ok {
        NotAccepted(packets, i, size);
        return;
      }
      i := i + 1;
    }
    assert packets[..|packets|] == packets;
  }

  lemma NothingReceived(size: nat)
    ensures AllAccepted([], size) && Image([], size) == []
  {
  }

  lemma AcceptNext(packets: seq<seq<bv8>>, i: nat, size: nat)
    requires i < |packets| && AllAccepted(packets[..i], size)
    ensures var got := Image(packets[..i], size);
            (AllAccepted(packets[..i + 1], size) <==> Accepts(|got|, size, |packets[i]|)) &&
            (|got| < size ==> Image(packets[..i + 1], size) == got + packets[i][..Taken(|got|, size, |packets[i]|)])
  {
    var front := packets[..i];
    assert packets[..i + 1] == front + [packets[i]];
    assert packets[..i + 1][..|packets[..i + 1]| - 1] == front;
    if |Image(front, size)| < size { ImageGrows(front, packets[i], size); }
  }

  lemma {:induction false} NotAccepted(packets: seq<seq<bv8>>, i: nat, size: nat)
    requires i < |packets| && !AllAccepted(packets[..i + 1], size)
    ensures !AllAccepted(packets, size)
    decreases |packets|
  {
    if i + 1 < |packets| {
      var front := packets[..|packets| - 1];
      assert front[..i + 1] == packets[..i + 1];
      NotAccepted(front, i, size);
    } else {
      assert packets[..i + 1] == packets;
    }
  }

  lemma Reassociate(a: seq<Op>, b: seq<Op>, c: seq<Op>)
    ensures a + b + c == a + (b + c)
  {
  }

  lemma WholeImage(packets: seq<seq<bv8>>, size: nat)
    ensures |Image(packets, size)| == size <==> |Joined(packets)| >= size
    ensures |Joined(packets)| >= size ==> Image(packets, size) == Joined(packets)[..size]
  {
    hide Joined;
  }

  /** A download as the callers drive it: start, packets, finish; a refused packet stops it. */
  method Download(u: Upgrade, size: bv32, packets: seq<seq<bv8>>) returns (success: bool)
    requires u.Valid() && forall i :: 0 <= i < |packets| ==> |packets[i]| < 0xF000_0000
    modifies u, u.chip, u.wbuf
    ensures u.Valid()
    ensures success <==> 0 < size as nat <= PARTITION && AllAccepted(packets, size as nat) &&
                         |Joined(packets)| >= size as nat &&
                         TailWorks(old(u.chip.words), Joined(packets)[..size as nat])
    ensures success ==> var image := Joined(packets)[..size as nat];
                        u.chip.words == Run(old(u.chip.words), SessionOps(image, size)) &&
                        u.chip.log == old(u.chip.log) + SessionOps(image, size) &&
                        BackupBytes(u.chip.words, size as nat) == image
  {
    hide Run, DownloadOps, FlagOps, TailOps, TailWorks, BackupBytes, Crc, BitCrc, Joined, Image, AllAccepted,
      Upgrade.BufferedAt;
    var started := u.StartUpdate(size);
    if !started { return false; }
    var received := ReceiveAll(u, packets);
    if !received {
      u.Reset();
      return false;
    }
    ghost var image := u.got;
    ghost var base := u.base;
    TailDecidedBefore(base, image);
    RunConcat(base, DownloadOps(image, |image| / 4), TailOps(image) + FlagOps(size, Crc(image)));
    Reassociate(u.startLog, DownloadOps(image, |image| / 4), TailOps(image) + FlagOps(size, Crc(image)));
    WholeImage(packets, size as nat);
    var outcome, mismatch := u.Finish();
    success := outcome == Success;
  }
}
