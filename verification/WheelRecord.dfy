/** A wheel's RECORD: accepted exactly when it lists every member once with its own digest and
    size, so that it fixes the content of every other member. */
module WheelRecord {
  import opened Prelude

  type Files = map<bytes, bytes>

  /** Path to digest and size text. */
  type Rows = map<bytes, (bytes, bytes)>

  /** `sha256=` and the unpadded URL-safe base64 of a content's digest. */
  type DigestText = bytes -> bytes

  /** Three columns, no path twice, no path too long. */
  predicate WellFormed(rows: seq<seq<bytes>>, maxPath: nat) {
    && (forall i :: 0 <= i < |rows| ==> |rows[i]| == 3 && |rows[i][0]| <= maxPath)
    && (forall i, j :: 0 <= i < j < |rows| ==> rows[i][0] != rows[j][0])
  }

  ghost predicate Tabulates(result: Rows, rows: seq<seq<bytes>>)
    requires forall i :: 0 <= i < |rows| ==> |rows[i]| == 3
  {
    && (forall i :: 0 <= i < |rows| ==> rows[i][0] in result && result[rows[i][0]] == (rows[i][1], rows[i][2]))
    && (forall p :: p in result ==> exists i :: 0 <= i < |rows| && rows[i][0] == p)
  }

  /** `_record_rows`, from the parsed CSV. */
  method RecordRows(rows: seq<seq<bytes>>, maxPath: nat) returns (r: Option<Rows>)
    ensures r.Some? <==> WellFormed(rows, maxPath)
    ensures r.Some? ==> Tabulates(r.value, rows)
  {
    var result: Rows := map[];
    for k := 0 to |rows|
      invariant WellFormed(rows[..k], maxPath) && Tabulates(result, rows[..k])
    {
      var row := rows[k];
      assert rows[..k + 1] == rows[..k] + [row];
      if |row| != 3 || row[0] in result || |row[0]| > maxPath {
        assert |row| == 3 && row[0] in result ==> exists i :: 0 <= i < k && rows[i][0] == row[0];
        return None;
      }
      result := result[row[0] := (row[1], row[2])];
    }
    assert rows[..|rows|] == rows;
    return Some(result);
  }

  /** What the row of a member must say. */
  function RowFor(text: DigestText, files: Files, record: bytes, path: bytes): (bytes, bytes)
    requires path in files
  {
    if path == record then ([], []) else (text(files[path]), Decimal(|files[path]|))
  }

  predicate Accepts(text: DigestText, files: Files, record: bytes, rows: Rows) {
    rows.Keys == files.Keys && forall p :: p in files ==> rows[p] == RowFor(text, files, record, p)
  }

  /** `_validate_record`. */
  method ValidateRecord(text: DigestText, files: Files, record: bytes, rows: Rows) returns (ok: bool)
    ensures ok <==> Accepts(text, files, record, rows)
  {
    if rows.Keys != files.Keys { return false; }
    var todo := files.Keys;
    while todo != {}
      invariant todo <= files.Keys
      invariant forall p :: p in files && p !in todo ==> rows[p] == RowFor(text, files, record, p)
      decreases |todo|
    {
      var path :| path in todo;
      var digest, size := rows[path].0, rows[path].1;
      if path == record {
        if digest != [] || size != [] { return false; }
      } else if digest != text(files[path]) || size != Decimal(|files[path]|) {
        return false;
      }
      todo := todo - {path};
    }
    ok := true;
  }

  /** Two wheels with one accepted RECORD have the same members and, apart from the RECORD
      itself, the same contents. */
  lemma RecordFixesTheWheel(text: DigestText, p: Files, q: Files, record: bytes, rows: Rows)
    requires Accepts(text, p, record, rows) && Accepts(text, q, record, rows)
    requires CollisionFree(text, p.Values + q.Values)
    ensures p.Keys == q.Keys && forall path :: path in p && path != record ==> p[path] == q[path]
  {
    forall path | path in p && path != record ensures path in q && p[path] == q[path] {
      assert path in rows.Keys && path in q.Keys;
      assert RowFor(text, p, record, path) == RowFor(text, q, record, path);
      assert p[path] in p.Values && q[path] in q.Values;
    }
  }
}
