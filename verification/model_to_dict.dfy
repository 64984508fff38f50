/** `model_to_dict` (`app/utils/model_to_dict.py`): a row's mapped columns
    turned into a dictionary, with each value formatted by its type. Python
    values are a small tagged union; evaluating a braced string is an opaque
    partial function supplied by the caller. */
module ModelToDict {
  import opened Wrappers

  /** 16^w. */
  function Pow16(w: nat): (r: nat)
    ensures r > 0
  {
    if w == 0 then 1 else 16 * Pow16(w - 1)
  }

  /** A UUID as its 128-bit integer (16^32 == 2^128). */
  type Uuid = n: nat | n < Pow16(32)

  /** The Python values a column can hold, as far as the formatter cares. */
  datatype PyValue =
    | PyNone
    | PyBool(b: bool)
    | PyInt(i: int)
    | PyFloat(f: real)
    | PyStr(s: string)
    | PyUuid(u: Uuid)
    | PyEnum(member: string, value: PyValue, isStr: bool)
    | PyDateTime(year: int, month: int, day: int, hour: int, minute: int, second: int, microsecond: int)
    | PyTuple(items: seq<PyValue>)
    | PyDict(entries: seq<(PyValue, PyValue)>)

  const HexDigits := "0123456789abcdef"

  /** The `width` low hexadecimal digits of `n`, most significant first. */
  function Hex(n: nat, width: nat): (r: string)
    ensures |r| == width
    ensures forall i :: 0 <= i < |r| ==> r[i] in HexDigits
  {
    if width == 0 then "" else Hex(n / 16, width - 1) + [HexDigits[n % 16]]
  }

  /** The value of one lower-case hexadecimal digit. */
  function DigitValue(c: char): nat
  {
    if '0' <= c <= '9' then c as nat - '0' as nat
    else if 'a' <= c <= 'f' then c as nat - 'a' as nat + 10
    else 0
  }

  /** The number a string of hexadecimal digits denotes. */
  function ParseHex(s: string): nat
  {
    if |s| == 0 then 0 else 16 * ParseHex(s[..|s| - 1]) + DigitValue(s[|s| - 1])
  }

  lemma DigitValueOfHex(k: nat)
    requires k < 16
    ensures DigitValue(HexDigits[k]) == k
  {
  }

  /** Euclidean remainder is determined by any matching quotient. */
  lemma ModUnique(n: int, d: int, k: int, rem: int)
    requires d > 0 && 0 <= rem < d && n == d * k + rem
    ensures n % d == rem
  {
    var x := k - n / d;
    assert d * x == n % d - rem;
  }

  /** The low digit and the remaining digits together give the remainder. */
  lemma ModSplit(n: nat, p: nat)
    requires p > 0
    ensures 16 * ((n / 16) % p) + n % 16 == n % (16 * p)
  {
    var q := n / 16;
    var k := q / p;
    var m := q % p;
    assert n == 16 * q + n % 16;
    assert q == p * k + m;
    assert n == (16 * p) * k + (16 * m + n % 16);
    ModUnique(n, 16 * p, k, 16 * m + n % 16);
  }

  /** Reading back `width` digits recovers the number modulo 16^width. */
  lemma {:induction false} ParseHexRoundTrip(n: nat, width: nat)
    ensures ParseHex(Hex(n, width)) == n % Pow16(width)
  {
    if width > 0 {
      var h := Hex(n, width);
      assert h[..|h| - 1] == Hex(n / 16, width - 1);
      ParseHexRoundTrip(n / 16, width - 1);
      DigitValueOfHex(n % 16);
      ModSplit(n, Pow16(width - 1));
    }
  }

  /** `str(uuid)`: 32 lower-case hex digits grouped 8-4-4-4-12. */
  function UuidString(u: Uuid): (r: string)
    ensures |r| == 36
    ensures r[8] == '-' && r[13] == '-' && r[18] == '-' && r[23] == '-'
    ensures forall i :: 0 <= i < 36 && i != 8 && i != 13 && i != 18 && i != 23 ==> r[i] in HexDigits
  {
    var h := Hex(u, 32);
    h[..8] + "-" + h[8..12] + "-" + h[12..16] + "-" + h[16..20] + "-" + h[20..]
  }

  /** The number a 36-character UUID text denotes, hyphens skipped. */
  function ParseUuid(s: string): nat
    requires |s| == 36
  {
    ParseHex(s[..8] + s[9..13] + s[14..18] + s[19..23] + s[24..])
  }

  lemma SmallMod(n: nat, d: nat)
    requires n < d
    ensures n % d == n
  {
  }

  /** Dropping the four hyphens of the 8-4-4-4-12 grouping gives back the digits. */
  lemma Regroup(h: string)
    requires |h| == 32
    ensures var s := h[..8] + "-" + h[8..12] + "-" + h[12..16] + "-" + h[16..20] + "-" + h[20..];
            |s| == 36 && s[..8] + s[9..13] + s[14..18] + s[19..23] + s[24..] == h
  {
    var s := h[..8] + "-" + h[8..12] + "-" + h[12..16] + "-" + h[16..20] + "-" + h[20..];
    assert s[..8] == h[..8];
    assert s[9..13] == h[8..12];
    assert s[14..18] == h[12..16];
    assert s[19..23] == h[16..20];
    assert s[24..] == h[20..];
    assert h == h[..8] + h[8..12] + h[12..16] + h[16..20] + h[20..];
  }

  /** The string form of a UUID determines it. */
  lemma UuidRoundTrip(u: Uuid)
    ensures ParseUuid(UuidString(u)) == u
  {
    var h := Hex(u, 32);
    var s := UuidString(u);
    assert s == h[..8] + "-" + h[8..12] + "-" + h[12..16] + "-" + h[16..20] + "-" + h[20..];
    Regroup(h);
    assert ParseUuid(s) == ParseHex(h);
    ParseHexRoundTrip(u, 32);
    SmallMod(u, Pow16(32));
  }

  /** `value.startswith("{") and value.endswith("}")`. */
  predicate Braced(s: string)
  {
    |s| > 0 && s[0] == '{' && s[|s| - 1] == '}'
  }

  /** The 7-tuple back as a datetime. */
  function TupleAsDateTime(t: PyValue): Option<PyValue>
  {
    if t.PyTuple? && |t.items| == 7 && forall i :: 0 <= i < 7 ==> t.items[i].PyInt? then
      Some(PyDateTime(t.items[0].i, t.items[1].i, t.items[2].i, t.items[3].i,
                      t.items[4].i, t.items[5].i, t.items[6].i))
    else None
  }

  /** A value none of the special branches apply to. */
  predicate Plain(v: PyValue)
  {
    !v.PyUuid? && !v.PyEnum? && !v.PyDateTime? && !(v.PyStr? && Braced(v.s))
  }

  /** The formatting of one value, branches tried in the source's order:
      UUID, then Enum, then datetime, then braced string. */
  function FormatValue(v: PyValue, eval: string -> Option<PyValue>): (r: PyValue)
    ensures v.PyUuid? ==> r.PyStr? && |r.s| == 36 && ParseUuid(r.s) == v.u
    ensures v.PyUuid? ==> r.s[8] == '-' && r.s[13] == '-' && r.s[18] == '-' && r.s[23] == '-'
    ensures v.PyUuid? ==> forall i :: 0 <= i < 36 && i != 8 && i != 13 && i != 18 && i != 23 ==> r.s[i] in HexDigits
    ensures v.PyEnum? ==> r == v.value
    ensures v.PyDateTime? ==> r.PyTuple? && |r.items| == 7 && TupleAsDateTime(r) == Some(v)
    ensures v.PyStr? && Braced(v.s) ==> r == (match eval(v.s) case Some(x) => x case None => v)
    ensures Plain(v) ==> r == v
  {
    match v
    case PyUuid(u) =>
      UuidRoundTrip(u);
      PyStr(UuidString(u))
    case PyEnum(_, value, _) => value
    case PyDateTime(y, mo, d, h, mi, s, us) =>
      PyTuple([PyInt(y), PyInt(mo), PyInt(d), PyInt(h), PyInt(mi), PyInt(s), PyInt(us)])
    case PyStr(s) =>
      if Braced(s) then
        match eval(s)
        case Some(x) => x
        case None => v
      else v
    case _ => v
  }

  /** A string-valued enum member whose value looks like a dict is not
      evaluated: the Enum branch is taken before the string branch. */
  lemma EnumBeforeString(member: string, text: string, eval: string -> Option<PyValue>)
    requires Braced(text)
    ensures FormatValue(PyEnum(member, PyStr(text), true), eval) == PyStr(text)
  {
  }

  /** Column `i` is the last one with its key. */
  predicate LastWithKey(row: seq<(string, PyValue)>, i: nat)
    requires i < |row|
  {
    forall j :: i < j < |row| ==> row[j].0 != row[i].0
  }

  /** The keys of a row's columns. */
  function ColumnKeys(row: seq<(string, PyValue)>): set<string>
  {
    if |row| == 0 then {} else ColumnKeys(row[..|row| - 1]) + {row[|row| - 1].0}
  }

  /** A key is a column key exactly when some column carries it. */
  lemma {:induction false} ColumnKeysMembership(row: seq<(string, PyValue)>, k: string)
    ensures k in ColumnKeys(row) <==> exists i :: 0 <= i < |row| && row[i].0 == k
  {
    if |row| > 0 {
      var init := row[..|row| - 1];
      ColumnKeysMembership(init, k);
      if k in ColumnKeys(init) {
        var i :| 0 <= i < |init| && init[i].0 == k;
        assert row[i] == init[i];
      }
      if exists i :: 0 <= i < |row| && row[i].0 == k {
        var i :| 0 <= i < |row| && row[i].0 == k;
        if i < |init| { assert init[i] == row[i]; }
      }
    }
  }

  /** With distinct keys there are as many column keys as columns. */
  lemma {:induction false} DistinctKeysCount(row: seq<(string, PyValue)>)
    requires forall i, j :: 0 <= i < j < |row| ==> row[i].0 != row[j].0
    ensures |ColumnKeys(row)| == |row|
  {
    if |row| > 0 {
      var init := row[..|row| - 1];
      var last := row[|row| - 1];
      DistinctKeysCount(init);
      ColumnKeysMembership(init, last.0);
      assert last.0 !in ColumnKeys(init) by {
        forall i | 0 <= i < |init| ensures init[i].0 != last.0 {
          assert init[i] == row[i];
        }
      }
    }
  }

  /** One step of the assignment loop: adding the last column's formatted
      value to the dict of the earlier columns keeps the last column with
      each key winning. */
  lemma LastColumnWins(row: seq<(string, PyValue)>, m: map<string, PyValue>, eval: string -> Option<PyValue>)
    requires |row| > 0
    requires forall i :: 0 <= i < |row| - 1 && LastWithKey(row[..|row| - 1], i) ==>
               row[i].0 in m && m[row[i].0] == FormatValue(row[i].1, eval)
    ensures var r := m[row[|row| - 1].0 := FormatValue(row[|row| - 1].1, eval)];
            forall i :: 0 <= i < |row| && LastWithKey(row, i) ==> row[i].0 in r && r[row[i].0] == FormatValue(row[i].1, eval)
  {
    var init := row[..|row| - 1];
    var last := row[|row| - 1];
    var r := m[last.0 := FormatValue(last.1, eval)];
    forall i | 0 <= i < |row| && LastWithKey(row, i)
      ensures row[i].0 in r && r[row[i].0] == FormatValue(row[i].1, eval)
    {
      if i < |init| {
        assert row[i].0 != last.0;
        assert LastWithKey(init, i) by {
          forall j | i < j < |init| ensures init[j].0 != init[i].0 {
            assert init[j] == row[j] && init[i] == row[i];
          }
        }
      }
    }
  }

  /** `model_to_dict`: the row's column keys, each mapped to its formatted
      value (a later column with the same key wins, as in a dict). */
  function ModelToDict(row: seq<(string, PyValue)>, eval: string -> Option<PyValue>): (r: map<string, PyValue>)
    ensures r.Keys == ColumnKeys(row)
    ensures forall i :: 0 <= i < |row| ==> row[i].0 in r
    ensures forall i :: 0 <= i < |row| && LastWithKey(row, i) ==> r[row[i].0] == FormatValue(row[i].1, eval)
  {
    if |row| == 0 then map[]
    else
      var init := row[..|row| - 1];
      var m := ModelToDict(init, eval);
      assert forall i :: 0 <= i < |init| ==> init[i] == row[i];
      LastColumnWins(row, m, eval);
      m[row[|row| - 1].0 := FormatValue(row[|row| - 1].1, eval)]
  }

  /** With distinct column keys (as a mapped table has), every column appears
      once with its own formatted value, and the dict has one entry per
      column. */
  lemma DistinctColumns(row: seq<(string, PyValue)>, eval: string -> Option<PyValue>)
    requires forall i, j :: 0 <= i < j < |row| ==> row[i].0 != row[j].0
    ensures forall i :: 0 <= i < |row| ==> ModelToDict(row, eval)[row[i].0] == FormatValue(row[i].1, eval)
    ensures |ModelToDict(row, eval)| == |row|
  {
    DistinctKeysCount(row);
    assert |ModelToDict(row, eval)| == |ModelToDict(row, eval).Keys|;
    forall i | 0 <= i < |row|
      ensures ModelToDict(row, eval)[row[i].0] == FormatValue(row[i].1, eval)
    {
      assert LastWithKey(row, i);
    }
  }
}
