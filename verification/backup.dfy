/** The backup download around the writer: the three CSV files it packs, and the list of the
    last backups kept in the browser, newest first and at most four long. */
module Backup {
  import opened Text
  import opened Wrappers
  import Csv
  import opened Zip
  import opened ZipReader

  /** What is remembered about one backup. */
  datatype BackupMetadata = BackupMetadata(id: string, createdAt: string, postsCount: nat, leadsCount: nat)

  /** How many backups the history keeps. */
  const HistoryLimit: nat := 4

  /** `[newBackup, ...backupHistory].slice(0, 4)`. */
  function PushHistory(b: BackupMetadata, history: seq<BackupMetadata>): (r: seq<BackupMetadata>)
    ensures |r| == if |history| + 1 < HistoryLimit then |history| + 1 else HistoryLimit
    ensures r[0] == b
    ensures r[1..] <= history
  {
    var all := [b] + history;
    if |all| <= HistoryLimit then all else all[..HistoryLimit]
  }

  /** The history after backups `bs` were made in that order, starting from `history`. */
  function PushAll(history: seq<BackupMetadata>, bs: seq<BackupMetadata>): seq<BackupMetadata>
    decreases |bs|
  {
    if bs == [] then history else PushAll(PushHistory(bs[0], history), bs[1..])
  }

  function Reverse<T>(s: seq<T>): (r: seq<T>)
    ensures |r| == |s|
    ensures forall i :: 0 <= i < |s| ==> r[i] == s[|s| - 1 - i]
  {
    if s == [] then [] else Reverse(s[1..]) + [s[0]]
  }

  /** The first `n` elements, or all of them when there are fewer. */
  function Take<T>(s: seq<T>, n: nat): (r: seq<T>)
    ensures r <= s && |r| == if |s| < n then |s| else n
  {
    if |s| <= n then s else s[..n]
  }

  /** Only the first four entries of a history matter for the next one. */
  lemma PushHistoryTruncated(b: BackupMetadata, history: seq<BackupMetadata>, n: nat)
    requires n >= HistoryLimit - 1
    ensures PushHistory(b, Take(history, n)) == PushHistory(b, history)
  {
    var r1, r2 := PushHistory(b, Take(history, n)), PushHistory(b, history);
    assert |r1| == |r2|;
    forall i | 1 <= i < |r1| ensures r1[i] == r2[i] {
      assert r1[i] == r1[1..][i - 1] == Take(history, n)[i - 1];
      assert r2[i] == r2[1..][i - 1] == history[i - 1];
    }
  }

  /** After a run of backups the history holds the most recent four, newest first, followed
      by what is left of the previous history. */
  lemma {:induction false} PushAllKeepsNewest(history: seq<BackupMetadata>, bs: seq<BackupMetadata>)
    requires |history| <= HistoryLimit
    ensures PushAll(history, bs) == Take(Reverse(bs) + history, HistoryLimit)
    decreases |bs|
  {
    hide *;
    if bs != [] {
      var h := PushHistory(bs[0], history);
      PushHistoryIsTake(bs[0], history);
      PushAllKeepsNewest(h, bs[1..]);
      PushAllStep(history, bs);
      ReverseStep(bs);
      TakeAfter(Reverse(bs[1..]), [bs[0]] + history, HistoryLimit);
      assert Reverse(bs) + history == Reverse(bs[1..]) + ([bs[0]] + history);
    } else {
      PushAllEmpty(history);
      TakeAll(history, HistoryLimit);
    }
  }

  lemma PushHistoryIsTake(b: BackupMetadata, history: seq<BackupMetadata>)
    ensures PushHistory(b, history) == Take([b] + history, HistoryLimit)
    ensures |PushHistory(b, history)| <= HistoryLimit
  {
  }

  lemma PushAllStep(history: seq<BackupMetadata>, bs: seq<BackupMetadata>)
    requires bs != []
    ensures PushAll(history, bs) == PushAll(PushHistory(bs[0], history), bs[1..])
  {
  }

  lemma PushAllEmpty(history: seq<BackupMetadata>)
    ensures PushAll(history, []) == history
  {
  }

  lemma ReverseStep<T>(s: seq<T>)
    requires s != []
    ensures Reverse(s) == Reverse(s[1..]) + [s[0]]
  {
  }

  lemma TakeAll<T>(s: seq<T>, n: nat)
    requires |s| <= n
    ensures Take(Reverse<T>([]) + s, n) == s
  {
    assert Reverse<T>([]) + s == s;
  }

  /** Cutting the tail to `n` first does not change the first `n` of the whole. */
  lemma TakeAfter<T>(a: seq<T>, x: seq<T>, n: nat)
    ensures Take(a + Take(x, n), n) == Take(a + x, n)
  {
    if |x| > n {
      assert (a + x)[..n] == (a + x[..n])[..n];
    }
  }

  /** The three files of a backup: articles, community leads and metadata, each as CSV. */
  function BackupFiles(posts: seq<Csv.Row>, leads: seq<Csv.Row>, metadata: Csv.Row): (r: seq<File>)
    ensures |r| == 3
    ensures r[0].name == "artigos.csv" && r[0].content == Csv.GenerateCsv(posts)
    ensures r[1].name == "leads_comunidade.csv" && r[1].content == Csv.GenerateCsv(leads)
    ensures r[2].name == "metadados.csv" && r[2].content == Csv.GenerateCsv([metadata])
  {
    [ File("artigos.csv", Csv.GenerateCsv(posts)),
      File("leads_comunidade.csv", Csv.GenerateCsv(leads)),
      File("metadados.csv", Csv.GenerateCsv([metadata])) ]
  }

  /** A ".csv" file is stored behind the byte-order mark. */
  lemma CsvStoredWithBom(f: File)
    requires EndsWith(f.name, ".csv")
    ensures |EntryOf(f).data| >= 3 && EntryOf(f).data[..3] == Bom
  {
    ContentBytesDecode(f);
  }

  /** Every file of a backup is a ".csv" file, so each is stored behind a byte-order mark. */
  lemma BackupFilesStored(posts: seq<Csv.Row>, leads: seq<Csv.Row>, metadata: Csv.Row)
    ensures forall i :: 0 <= i < 3 ==> EndsWith(BackupFiles(posts, leads, metadata)[i].name, ".csv")
    ensures forall i :: 0 <= i < 3 ==> EntryOf(BackupFiles(posts, leads, metadata)[i]).data[..3] == Bom
  {
    hide Csv.GenerateCsv, BackupFiles;
    var files := BackupFiles(posts, leads, metadata);
    forall i | 0 <= i < 3
      ensures EndsWith(files[i].name, ".csv") && EntryOf(files[i]).data[..3] == Bom
    {
      assert files[i].name[|files[i].name| - 4..] == ".csv" by {
        if i == 0 {
          assert files[i].name == "artigos.csv";
        } else if i == 1 {
          assert files[i].name == "leads_comunidade.csv";
        } else {
          assert files[i].name == "metadados.csv";
        }
      }
      CsvStoredWithBom(files[i]);
    }
  }
}
