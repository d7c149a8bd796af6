/**
  The credential loader of `readCredentialsFromFile`: a left fold over the
  lines of `creds.config` into a triple of strings. Each line whose text starts
  with one of three fixed keys overwrites the matching field with the rest of
  the line; every other line is ignored.
 */
module Credentials {
  import opened GoStrings
  import opened Options

  /** The three settings the loader recognises. */
  datatype Key = ClientId | ClientSecret | TenantId

  /** The service-principal credentials; a field never set stays empty. */
  datatype Creds = Creds(clientId: string, clientSecret: string, tenantId: string)

  /** The state before any line is read: all three fields empty. */
  const Empty := Creds("", "", "")

  /** The exact, case-sensitive text a line must start with to set a key. */
  function Prefix(k: Key): string
  {
    match k
    case ClientId => "AZURE_CLIENT_ID="
    case ClientSecret => "AZURE_CLIENT_SECRET="
    case TenantId => "AZURE_TENANT_ID="
  }

  function Field(c: Creds, k: Key): string
  {
    match k
    case ClientId => c.clientId
    case ClientSecret => c.clientSecret
    case TenantId => c.tenantId
  }

  /** `c` with the field of `k` replaced by `v` and the other two kept. */
  function WithField(c: Creds, k: Key, v: string): (r: Creds)
    ensures Field(r, k) == v
    ensures forall k' :: k' != k ==> Field(r, k') == Field(c, k')
  {
    match k
    case ClientId => c.(clientId := v)
    case ClientSecret => c.(clientSecret := v)
    case TenantId => c.(tenantId := v)
  }

  /** Two credential triples agreeing on every key are the same triple. */
  lemma FieldsDetermine(c: Creds, d: Creds)
    requires forall k :: Field(c, k) == Field(d, k)
    ensures c == d
  {
    assert Field(c, ClientId) == Field(d, ClientId);
    assert Field(c, ClientSecret) == Field(d, ClientSecret);
    assert Field(c, TenantId) == Field(d, TenantId);
  }

  /** No key's prefix is a prefix of another key's, so at most one key can match a line. */
  lemma PrefixesExclusive(line: string, k: Key, k': Key)
    requires HasPrefix(line, Prefix(k)) && HasPrefix(line, Prefix(k'))
    ensures k == k'
  {
    // Every prefix has length at least 16; the three differ at index 6 or 13.
    assert line[6] == Prefix(k)[6] == Prefix(k')[6];
    assert line[13] == Prefix(k)[13] == Prefix(k')[13];
  }

  /**
    The `if … else if … else if` chain of the loop body: which key, if any, the
    line sets. Because the prefixes exclude each other, the answer is the one
    key whose prefix the line starts with, whatever order the chain tests them in.
   */
  function Classify(line: string): (r: Option<Key>)
    ensures forall k :: r == Some(k) <==> HasPrefix(line, Prefix(k))
    ensures r == None <==> forall k :: !HasPrefix(line, Prefix(k))
  {
    if HasPrefix(line, Prefix(ClientId)) then
      assert forall k :: HasPrefix(line, Prefix(k)) ==> k == ClientId by {
        forall k | HasPrefix(line, Prefix(k)) { PrefixesExclusive(line, k, ClientId); }
      }
      Some(ClientId)
    else if HasPrefix(line, Prefix(ClientSecret)) then
      assert forall k :: HasPrefix(line, Prefix(k)) ==> k == ClientSecret by {
        forall k | HasPrefix(line, Prefix(k)) { PrefixesExclusive(line, k, ClientSecret); }
      }
      Some(ClientSecret)
    else if HasPrefix(line, Prefix(TenantId)) then
      Some(TenantId)
    else
      None
  }

  /**
    One iteration of the scanning loop. A field changes exactly when the line
    starts with that field's prefix, and then it holds the rest of the line.
   */
  function Step(c: Creds, line: string): (r: Creds)
    ensures forall k :: HasPrefix(line, Prefix(k)) ==> Prefix(k) + Field(r, k) == line
    ensures forall k :: !HasPrefix(line, Prefix(k)) ==> Field(r, k) == Field(c, k)
  {
    match Classify(line)
    case None => c
    case Some(k) => WithField(c, k, TrimPrefix(line, Prefix(k)))
  }

  /** The state after scanning `lines` in order, starting from `c`. */
  function Fold(c: Creds, lines: seq<string>): Creds
  {
    if |lines| == 0 then c else Step(Fold(c, lines[..|lines| - 1]), lines[|lines| - 1])
  }

  /**
    The triple `readCredentialsFromFile` returns for a file that opens and
    scans cleanly: every field is its key's reference value.
   */
  function Parse(lines: seq<string>): (r: Creds)
    ensures forall k :: Field(r, k) == Reference(lines, k)
  {
    assert forall k :: Field(Fold(Empty, lines), k) == Reference(lines, k) by {
      forall k { FoldField(Empty, lines, k); }
    }
    Fold(Empty, lines)
  }

  /**
    The scanning loop as the program writes it: three variables updated line
    by line. Its result is the fold, and each field obeys the reference
    definition `Reference` (the last matching line wins, or empty).
   */
  method ReadCredentials(lines: seq<string>) returns (clientId: string, clientSecret: string, tenantId: string)
    ensures Creds(clientId, clientSecret, tenantId) == Parse(lines)
    ensures clientId == Reference(lines, ClientId)
    ensures clientSecret == Reference(lines, ClientSecret)
    ensures tenantId == Reference(lines, TenantId)
  {
    clientId, clientSecret, tenantId := "", "", "";
    var i := 0;
    while i < |lines|
      invariant 0 <= i <= |lines|
      invariant Creds(clientId, clientSecret, tenantId) == Fold(Empty, lines[..i])
    {
      var line := lines[i];
      if HasPrefix(line, Prefix(ClientId)) {
        clientId := TrimPrefix(line, Prefix(ClientId));
      } else if HasPrefix(line, Prefix(ClientSecret)) {
        clientSecret := TrimPrefix(line, Prefix(ClientSecret));
      } else if HasPrefix(line, Prefix(TenantId)) {
        tenantId := TrimPrefix(line, Prefix(TenantId));
      }
      assert lines[..i + 1][..i] == lines[..i];
      i := i + 1;
    }
    assert lines[..i] == lines;
    ReferenceAgrees(lines, ClientId);
    ReferenceAgrees(lines, ClientSecret);
    ReferenceAgrees(lines, TenantId);
  }

  /**
    The outcome of the whole loader: `None` when `creds.config` cannot be
    opened (the program then reports the error and stops), otherwise the
    parsed triple. `file` is the file's lines, or `None` if the open failed.
   */
  function Load(file: Option<seq<string>>): (r: Option<Creds>)
    ensures file.None? <==> r.None?
    ensures file.Some? ==> forall k :: Field(r.value, k) == Reference(file.value, k)
  {
    match file
    case None => None
    case Some(lines) =>
      assert forall k :: Field(Parse(lines), k) == Reference(lines, k) by {
        forall k { ReferenceAgrees(lines, k); }
      }
      Some(Parse(lines))
  }

  // ---------------------------------------------------------------------------
  // Reference definition: each field depends only on the lines of its own key.
  // ---------------------------------------------------------------------------

  /** The lines of `lines` that start with `k`'s prefix, in their original order. */
  function Matching(lines: seq<string>, k: Key): seq<string>
  {
    if |lines| == 0 then []
    else
      var rest := Matching(lines[..|lines| - 1], k);
      if HasPrefix(lines[|lines| - 1], Prefix(k)) then rest + [lines[|lines| - 1]] else rest
  }

  /** The value a key ends up with: the rest of its last matching line, or empty if none matches. */
  function Reference(lines: seq<string>, k: Key): string
  {
    var m := Matching(lines, k);
    if |m| == 0 then "" else TrimPrefix(m[|m| - 1], Prefix(k))
  }

  /** Scanning from any start state, a key's field is the start value when no line matches, else the reference value. */
  lemma {:induction false} FoldField(c: Creds, lines: seq<string>, k: Key)
    ensures |Matching(lines, k)| == 0 ==> Field(Fold(c, lines), k) == Field(c, k)
    ensures |Matching(lines, k)| > 0 ==> Field(Fold(c, lines), k) == Reference(lines, k)
    decreases |lines|
  {
    if |lines| > 0 {
      var init, last := lines[..|lines| - 1], lines[|lines| - 1];
      FoldField(c, init, k);
      StepField(Fold(c, init), last, k);
      if HasPrefix(last, Prefix(k)) {
        ReferenceOfMatchingLast(lines, k);
      } else {
        ReferenceOfOtherLast(lines, k);
      }
    }
  }

  /** One step seen through a single key. */
  lemma StepField(c: Creds, line: string, k: Key)
    ensures HasPrefix(line, Prefix(k)) ==> Field(Step(c, line), k) == TrimPrefix(line, Prefix(k))
    ensures !HasPrefix(line, Prefix(k)) ==> Field(Step(c, line), k) == Field(c, k)
  {
    if HasPrefix(line, Prefix(k)) {
      TrimPrefixOfConcat(Prefix(k), Field(Step(c, line), k));
    }
  }

  lemma ReferenceOfMatchingLast(lines: seq<string>, k: Key)
    requires |lines| > 0 && HasPrefix(lines[|lines| - 1], Prefix(k))
    ensures |Matching(lines, k)| > 0
    ensures Reference(lines, k) == TrimPrefix(lines[|lines| - 1], Prefix(k))
  {
  }

  lemma ReferenceOfOtherLast(lines: seq<string>, k: Key)
    requires |lines| > 0 && !HasPrefix(lines[|lines| - 1], Prefix(k))
    ensures Matching(lines, k) == Matching(lines[..|lines| - 1], k)
    ensures Reference(lines, k) == Reference(lines[..|lines| - 1], k)
  {
    var init := lines[..|lines| - 1];
    assert Matching(lines, k) == Matching(init, k);
  }

  /** The parsed field of every key equals the reference definition. */
  lemma ReferenceAgrees(lines: seq<string>, k: Key)
    ensures Field(Parse(lines), k) == Reference(lines, k)
  {
    FoldField(Empty, lines, k);
  }

  /** Scanning a concatenation is scanning the first part, then the second from where it left off. */
  lemma {:induction false} FoldAppend(c: Creds, xs: seq<string>, ys: seq<string>)
    ensures Fold(c, xs + ys) == Fold(Fold(c, xs), ys)
    decreases |ys|
  {
    if |ys| == 0 {
      assert xs + ys == xs;
    } else {
      var zs := xs + ys;
      assert zs[..|zs| - 1] == xs + ys[..|ys| - 1];
      assert zs[|zs| - 1] == ys[|ys| - 1];
      FoldAppend(c, xs, ys[..|ys| - 1]);
    }
  }

  // ---------------------------------------------------------------------------
  // Properties of the loader.
  // ---------------------------------------------------------------------------

  /** A key that no line starts with is left as the empty string. */
  lemma MissingKeyIsEmpty(lines: seq<string>, k: Key)
    requires forall i :: 0 <= i < |lines| ==> !HasPrefix(lines[i], Prefix(k))
    ensures Field(Parse(lines), k) == ""
  {
    NoMatchingLines(lines, k);
    ReferenceAgrees(lines, k);
  }

  lemma {:induction false} NoMatchingLines(lines: seq<string>, k: Key)
    requires forall i :: 0 <= i < |lines| ==> !HasPrefix(lines[i], Prefix(k))
    ensures Matching(lines, k) == []
    decreases |lines|
  {
    if |lines| > 0 {
      NoMatchingLines(lines[..|lines| - 1], k);
    }
  }

  /**
    Last write wins: when line `i` starts with `k`'s prefix and no later line
    does, the field holds line `i` with the prefix removed.
   */
  lemma LastWriteWins(lines: seq<string>, i: nat, k: Key)
    requires i < |lines| && HasPrefix(lines[i], Prefix(k))
    requires forall j :: i < j < |lines| ==> !HasPrefix(lines[j], Prefix(k))
    ensures Prefix(k) + Field(Parse(lines), k) == lines[i]
  {
    var head, tail := lines[..i + 1], lines[i + 1..];
    assert lines == head + tail;
    assert head[..|head| - 1] == lines[..i];
    FoldAppend(Empty, head, tail);
    assert forall j :: 0 <= j < |tail| ==> !HasPrefix(tail[j], Prefix(k)) by {
      forall j | 0 <= j < |tail| ensures !HasPrefix(tail[j], Prefix(k)) {
        assert tail[j] == lines[i + 1 + j];
      }
    }
    NoMatchingLines(tail, k);
    FoldField(Fold(Empty, head), tail, k);
  }

  /**
    Every non-empty field came from a line: some line starts with the key's
    prefix, no later line does, and prefix plus field rebuilds that line.
   */
  lemma ValueComesFromLastLine(lines: seq<string>, k: Key)
    requires Field(Parse(lines), k) != ""
    ensures exists i :: (0 <= i < |lines| && Prefix(k) + Field(Parse(lines), k) == lines[i]
                         && forall j :: i < j < |lines| ==> !HasPrefix(lines[j], Prefix(k)))
  {
    var i := LastMatch(lines, k);
    LastWriteWins(lines, i, k);
  }

  /** The index of the last line starting with `k`'s prefix, when one exists. */
  lemma {:induction false} LastMatchExists(lines: seq<string>, k: Key)
    requires |Matching(lines, k)| > 0
    ensures exists i :: (0 <= i < |lines| && HasPrefix(lines[i], Prefix(k))
                         && forall j :: i < j < |lines| ==> !HasPrefix(lines[j], Prefix(k)))
    decreases |lines|
  {
    var init, last := lines[..|lines| - 1], lines[|lines| - 1];
    if !HasPrefix(last, Prefix(k)) {
      LastMatchExists(init, k);
      var i :| 0 <= i < |init| && HasPrefix(init[i], Prefix(k))
        && forall j :: i < j < |init| ==> !HasPrefix(init[j], Prefix(k));
      assert forall j :: i < j < |lines| ==> !HasPrefix(lines[j], Prefix(k)) by {
        forall j | i < j < |lines| ensures !HasPrefix(lines[j], Prefix(k)) {
          if j < |init| { assert lines[j] == init[j]; }
        }
      }
    }
  }

  ghost function LastMatch(lines: seq<string>, k: Key): (i: nat)
    requires Field(Parse(lines), k) != ""
    ensures i < |lines| && HasPrefix(lines[i], Prefix(k))
    ensures forall j :: i < j < |lines| ==> !HasPrefix(lines[j], Prefix(k))
  {
    ReferenceAgrees(lines, k);
    LastMatchExists(lines, k);
    var i :| 0 <= i < |lines| && HasPrefix(lines[i], Prefix(k))
      && forall j :: i < j < |lines| ==> !HasPrefix(lines[j], Prefix(k));
    i
  }

  /** A line matching none of the three exact prefixes changes nothing. */
  lemma UnknownLineIgnored(c: Creds, line: string)
    requires forall k :: !HasPrefix(line, Prefix(k))
    ensures Step(c, line) == c
  {
    FieldsDetermine(Step(c, line), c);
  }

  /** Each line sets at most one field: the other two keep their values. */
  lemma StepChangesAtMostOneField(c: Creds, line: string, k: Key, k': Key)
    requires k != k' && Field(Step(c, line), k) != Field(c, k)
    ensures Field(Step(c, line), k') == Field(c, k')
  {
    if HasPrefix(line, Prefix(k')) {
      PrefixesExclusive(line, k, k');
    }
  }

  /** Leading whitespace hides a key: a line starting with a space or a tab is ignored. */
  lemma LeadingWhitespaceIgnored(c: Creds, line: string)
    requires |line| > 0 && (line[0] == ' ' || line[0] == '\t')
    ensures Step(c, line) == c
  {
    UnknownLineIgnored(c, line);
  }

  /** Keys are case-sensitive: a line starting with a lower-case letter is ignored. */
  lemma LowerCaseIgnored(c: Creds, line: string)
    requires |line| > 0 && 'a' <= line[0] <= 'z'
    ensures Step(c, line) == c
  {
    UnknownLineIgnored(c, line);
  }

  /** A key's name without the `=` that ends its prefix. */
  function KeyName(k: Key): (name: string)
    ensures name + "=" == Prefix(k)
  {
    Prefix(k)[..|Prefix(k)| - 1]
  }

  /** A key name not followed by `=` is not a key: the line is ignored, whatever follows. */
  lemma MissingEqualsIgnored(c: Creds, k: Key, v: string)
    requires v == [] || v[0] != '='
    ensures Step(c, KeyName(k) + v) == c
  {
    var line := KeyName(k) + v;
    forall k' ensures !HasPrefix(line, Prefix(k')) {
      // The other keys' prefixes differ from this key's name at index 6 or 13.
      assert line[6] == KeyName(k)[6] && line[13] == KeyName(k)[13];
      if k' == k && |v| > 0 {
        assert line[|KeyName(k)|] == v[0];
      }
    }
    UnknownLineIgnored(c, line);
  }

  /** Two adjacent lines that do not set the same key may be scanned in either order. */
  lemma StepsCommute(c: Creds, a: string, b: string)
    requires forall k :: !(HasPrefix(a, Prefix(k)) && HasPrefix(b, Prefix(k)))
    ensures Step(Step(c, a), b) == Step(Step(c, b), a)
  {
    FieldsDetermine(Step(Step(c, a), b), Step(Step(c, b), a));
  }

  /** Swapping two adjacent lines that belong to different keys leaves the parsed credentials unchanged. */
  lemma SwapDifferentKeys(xs: seq<string>, a: string, b: string, ys: seq<string>)
    requires forall k :: !(HasPrefix(a, Prefix(k)) && HasPrefix(b, Prefix(k)))
    ensures Parse(xs + [a, b] + ys) == Parse(xs + [b, a] + ys)
  {
    var s := Fold(Empty, xs);
    FoldTwo(s, a, b);
    FoldTwo(s, b, a);
    StepsCommute(s, a, b);
    FoldAppend(Empty, xs, [a, b]);
    FoldAppend(Empty, xs, [b, a]);
    FoldAppend(Empty, xs + [a, b], ys);
    FoldAppend(Empty, xs + [b, a], ys);
  }

  /**
    Any two files whose lines for each key appear in the same relative order
    parse to the same credentials, however lines of different keys and
    ignored lines are interleaved.
   */
  lemma SameKeyLinesSameCreds(lines: seq<string>, lines': seq<string>)
    requires forall k :: Matching(lines, k) == Matching(lines', k)
    ensures Parse(lines) == Parse(lines')
  {
    forall k
      ensures Field(Parse(lines), k) == Field(Parse(lines'), k)
    {
      assert Reference(lines, k) == Reference(lines', k);
    }
    FieldsDetermine(Parse(lines), Parse(lines'));
  }

  /** Scanning two lines is two steps, in order. */
  lemma FoldTwo(c: Creds, a: string, b: string)
    ensures Fold(c, [a, b]) == Step(Step(c, a), b)
  {
    assert [a, b][..1] == [a];
    assert [a][..0] == [];
    assert Fold(c, [a]) == Step(c, a);
  }

  /** Scanning three lines is three steps, in order. */
  lemma FoldThree(c: Creds, a: string, b: string, d: string)
    ensures Fold(c, [a, b, d]) == Step(Step(Step(c, a), b), d)
  {
    assert [a, b, d][..2] == [a, b];
    FoldTwo(c, a, b);
  }

  /** A line made of a key's prefix and a value sets that key to the value. */
  lemma StepSetsKey(c: Creds, k: Key, v: string)
    ensures Step(c, Prefix(k) + v) == WithField(c, k, v)
  {
    TrimPrefixOfConcat(Prefix(k), v);
    FieldsDetermine(Step(c, Prefix(k) + v), WithField(c, k, v));
  }

  /** A three-line file with one line per key yields exactly those three values, in these two orders. */
  lemma WellFormedFile(id: string, secret: string, tenant: string)
    ensures Parse([Prefix(ClientId) + id, Prefix(ClientSecret) + secret, Prefix(TenantId) + tenant])
      == Creds(id, secret, tenant)
    ensures Parse([Prefix(TenantId) + tenant, Prefix(ClientId) + id, Prefix(ClientSecret) + secret])
      == Creds(id, secret, tenant)
  {
    var l1, l2, l3 := Prefix(ClientId) + id, Prefix(ClientSecret) + secret, Prefix(TenantId) + tenant;
    FoldThree(Empty, l1, l2, l3);
    StepSetsKey(Empty, ClientId, id);
    StepSetsKey(Creds(id, "", ""), ClientSecret, secret);
    StepSetsKey(Creds(id, secret, ""), TenantId, tenant);
    FoldThree(Empty, l3, l1, l2);
    StepSetsKey(Empty, TenantId, tenant);
    StepSetsKey(Creds("", "", tenant), ClientId, id);
    StepSetsKey(Creds(id, "", tenant), ClientSecret, secret);
  }

  /**
    Line order does not matter: in any file where line `i` sets the client
    id, line `j` the secret and line `l` the tenant, and no other line starts
    with any of those keys, the result is exactly the three values.
   */
  lemma OneLinePerKeyAnyOrder(lines: seq<string>, i: nat, j: nat, l: nat, id: string, secret: string, tenant: string)
    requires i < |lines| && lines[i] == Prefix(ClientId) + id
    requires j < |lines| && lines[j] == Prefix(ClientSecret) + secret
    requires l < |lines| && lines[l] == Prefix(TenantId) + tenant
    requires forall m :: 0 <= m < |lines| && m != i ==> !HasPrefix(lines[m], Prefix(ClientId))
    requires forall m :: 0 <= m < |lines| && m != j ==> !HasPrefix(lines[m], Prefix(ClientSecret))
    requires forall m :: 0 <= m < |lines| && m != l ==> !HasPrefix(lines[m], Prefix(TenantId))
    ensures Parse(lines) == Creds(id, secret, tenant)
  {
    OnlyLineForKey(lines, i, ClientId, id);
    OnlyLineForKey(lines, j, ClientSecret, secret);
    OnlyLineForKey(lines, l, TenantId, tenant);
    FieldsDetermine(Parse(lines), Creds(id, secret, tenant));
  }

  /** The one line that starts with a key's prefix decides that key's value. */
  lemma OnlyLineForKey(lines: seq<string>, i: nat, k: Key, v: string)
    requires i < |lines| && lines[i] == Prefix(k) + v
    requires forall m :: 0 <= m < |lines| && m != i ==> !HasPrefix(lines[m], Prefix(k))
    ensures Field(Parse(lines), k) == v
  {
    TrimPrefixOfConcat(Prefix(k), v);
    LastWriteWins(lines, i, k);
    TrimPrefixOfConcat(Prefix(k), Field(Parse(lines), k));
  }
}
