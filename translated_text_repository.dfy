/**
 * The translated-text repository: the corporate-code tables in their default language, and
 * the translations of the corporate codes into a language, grouped by table, with the
 * entries whose key is not an integer left out.
 */
module TranslatedTextRepository {
  import opened Wrappers
  import opened Queries
  import opened Text

  /** One translation of one row of a corporate-code table. */
  datatype TranslatedText = TranslatedText(tableName: Option<string>, language: Option<string>,
                                           languageVariant: Option<string>, pkColumnValue: Option<string>,
                                           translatedColumnValue: Option<string>)

  /** One code of a corporate-code table and its text. */
  datatype CodeItem = CodeItem(code: int, value: Option<string>)

  /** A corporate-code table: its name and its codes. */
  datatype CorporateCode = CorporateCode(corporateCode: Option<string>, items: seq<CodeItem>)

  /** The eleven corporate-code tables. */
  datatype CCKind =
    | CCCenterStatus | CCCenterType | CCInventoryFileType | CCInventoryMissingType | CCLocalIT
    | CCLocalITFileStatus | CCPhysicalFileStatus | CCRecordStatus | CCReportCategory
    | CCSessionStatus | CCUserRole

  /** One row of a corporate-code table. */
  datatype CCEntry = CCEntry(id: int, value: Option<string>)

  /** The order in which `GetDefaultText` lists the tables. */
  const DefaultKinds: seq<CCKind> := [
    CCCenterStatus, CCCenterType, CCInventoryFileType, CCInventoryMissingType, CCLocalIT,
    CCLocalITFileStatus, CCPhysicalFileStatus, CCRecordStatus, CCReportCategory,
    CCSessionStatus, CCUserRole]

  /** Where a table stands in the order of `GetDefaultText`. */
  function KindIndex(k: CCKind): (i: nat)
    ensures i < |DefaultKinds| && DefaultKinds[i] == k
  {
    match k
    case CCCenterStatus => 0
    case CCCenterType => 1
    case CCInventoryFileType => 2
    case CCInventoryMissingType => 3
    case CCLocalIT => 4
    case CCLocalITFileStatus => 5
    case CCPhysicalFileStatus => 6
    case CCRecordStatus => 7
    case CCReportCategory => 8
    case CCSessionStatus => 9
    case CCUserRole => 10
  }

  /** Every table is listed, and none twice. */
  lemma DefaultKindsListEachTableOnce()
    ensures |DefaultKinds| == 11
    ensures forall k: CCKind :: k in DefaultKinds
    ensures forall i, j :: 0 <= i < j < |DefaultKinds| ==> DefaultKinds[i] != DefaultKinds[j]
  {
    forall k: CCKind ensures k in DefaultKinds {
      assert DefaultKinds[KindIndex(k)] == k;
    }
  }

  /**
   * `GetCorporateCodeValues<T>()`: the table's mapped name and every row as a code item
   * (id and value), in stored order. `tableName` stands for the name mapper and `rows` for
   * the stored tables.
   */
  function CorporateCodeValues(tableName: CCKind -> Option<string>, rows: CCKind -> seq<CCEntry>, k: CCKind)
    : (r: CorporateCode)
    ensures r.corporateCode == tableName(k)
    ensures |r.items| == |rows(k)| &&
      forall i :: 0 <= i < |rows(k)| ==> r.items[i] == CodeItem(rows(k)[i].id, rows(k)[i].value)
  {
    var entries := rows(k);
    CorporateCode(tableName(k), seq(|entries|, i requires 0 <= i < |entries| => CodeItem(entries[i].id, entries[i].value)))
  }

  /** `GetDefaultText()`: the values of every corporate-code table, in the fixed order. */
  function GetDefaultText(tableName: CCKind -> Option<string>, rows: CCKind -> seq<CCEntry>): (r: seq<CorporateCode>)
    ensures |r| == |DefaultKinds|
    ensures forall i :: 0 <= i < |r| ==> r[i] == CorporateCodeValues(tableName, rows, DefaultKinds[i])
  {
    seq(|DefaultKinds|, i requires 0 <= i < |DefaultKinds| => CorporateCodeValues(tableName, rows, DefaultKinds[i]))
  }

  /** Every table appears once in the default text, with all its rows. */
  lemma DefaultTextCoversEveryTable(tableName: CCKind -> Option<string>, rows: CCKind -> seq<CCEntry>, k: CCKind)
    ensures var r := GetDefaultText(tableName, rows);
            exists i :: 0 <= i < |r| && r[i] == CorporateCodeValues(tableName, rows, k)
  {
    var i := KindIndex(k);
    assert GetDefaultText(tableName, rows)[i] == CorporateCodeValues(tableName, rows, k);
  }

  /** The translation filter: the language, and the variant when one is given. */
  predicate InLanguage(x: TranslatedText, language: Option<string>, variant: Option<string>)
  {
    x.language == language && (variant.None? || x.languageVariant == variant)
  }

  /** The translations in the language (and variant), in stored order. */
  function Translations(rows: seq<TranslatedText>, language: Option<string>, variant: Option<string>)
    : (r: seq<TranslatedText>)
    ensures forall x :: x in r <==> x in rows && InLanguage(x, language, variant)
  {
    Where(rows, (x: TranslatedText) => InLanguage(x, language, variant))
  }

  /** The distinct table names of the translations, in order of first appearance. */
  function TableNames(items: seq<TranslatedText>): (r: seq<Option<string>>)
    ensures forall i, j :: 0 <= i < j < |r| ==> r[i] != r[j]
    ensures forall k :: k in r <==> exists x :: x in items && x.tableName == k
  {
    if items == [] then []
    else
      var n := |items| - 1;
      var r := TableNames(items[..n]);
      assert items == items[..n] + [items[n]];
      if items[n].tableName in r then r else r + [items[n].tableName]
  }

  /** The position of the first translation of table `t`, or the length when there is none. */
  function FirstPos(items: seq<TranslatedText>, t: Option<string>): (p: nat)
    ensures p <= |items|
    ensures p < |items| ==> items[p].tableName == t
    ensures forall i :: 0 <= i < p && i < |items| ==> items[i].tableName != t
  {
    if items == [] then 0
    else
      var n := |items| - 1;
      var q := FirstPos(items[..n], t);
      assert q < n ==> items[..n][q] == items[q];
      assert q == n ==> forall i :: 0 <= i < n ==> items[..n][i] == items[i];
      if q < n then q else if items[n].tableName == t then n else n + 1
  }

  /** A table seen in all but the last translation keeps its first position; one seen only last is first seen there. */
  lemma FirstPosSnoc(items: seq<TranslatedText>, t: Option<string>)
    requires items != []
    ensures var n := |items| - 1;
      (FirstPos(items[..n], t) < n ==> FirstPos(items, t) == FirstPos(items[..n], t)) &&
      (FirstPos(items[..n], t) == n && items[n].tableName == t ==> FirstPos(items, t) == n)
  {
  }

  /**
   * `TableNames` lists the tables in order of first appearance: every name has a translation,
   * and of two names the earlier one has its first translation earlier.
   */
  lemma {:induction false} TableNamesFirstAppearance(items: seq<TranslatedText>)
    ensures var r := TableNames(items);
      (forall i :: 0 <= i < |r| ==> FirstPos(items, r[i]) < |items|) &&
      (forall i, j :: 0 <= i < j < |r| ==> FirstPos(items, r[i]) < FirstPos(items, r[j]))
  {
    if items != [] {
      var n := |items| - 1;
      var prev := TableNames(items[..n]);
      TableNamesFirstAppearance(items[..n]);
      assert forall i :: 0 <= i < |TableNames(items[..n])| ==> FirstPos(items[..n], TableNames(items[..n])[i]) < |items[..n]|;
      forall i | 0 <= i < |prev| ensures FirstPos(items, prev[i]) == FirstPos(items[..n], prev[i]) < n {
        FirstPosSnoc(items, prev[i]);
      }
      var t := items[n].tableName;
      if t !in prev {
        FirstPosSnoc(items, t);
        var r := prev + [t];
        assert TableNames(items) == r;
        forall i, j | 0 <= i < j < |r| ensures FirstPos(items, r[i]) < FirstPos(items, r[j]) {
          assert r[i] == prev[i];
          if j < |prev| {
            assert r[j] == prev[j];
          }
        }
      } else {
        assert TableNames(items) == prev;
      }
    }
  }

  /** The translations of one table, in their original order. */
  function OfTable(items: seq<TranslatedText>, table: Option<string>): (r: seq<TranslatedText>)
    ensures forall x :: x in r <==> x in items && x.tableName == table
  {
    Where(items, (x: TranslatedText) => x.tableName == table)
  }

  /** One group of `GroupBy(TableName)`: a table name and its translations, in order. */
  datatype Grouping = Grouping(key: Option<string>, elements: seq<TranslatedText>)

  /**
   * `GroupBy(x => x.TableName)`: one group per distinct table name, in order of first
   * appearance, each holding that table's translations in their original order.
   */
  function GroupBy(items: seq<TranslatedText>): (r: seq<Grouping>)
    ensures |r| == |TableNames(items)|
    ensures forall i :: 0 <= i < |r| ==>
      r[i].key == TableNames(items)[i] && r[i].elements == OfTable(items, r[i].key)
  {
    var keys := TableNames(items);
    seq(|keys|, i requires 0 <= i < |keys| => Grouping(keys[i], OfTable(items, keys[i])))
  }

  /** The code item of one translation, when its key parses as a 32-bit integer. */
  function ItemOf(x: TranslatedText): (r: Option<CodeItem>)
    ensures r.Some? <==> TryParseInt(x.pkColumnValue).Some?
    ensures r.Some? ==> r.value == CodeItem(TryParseInt(x.pkColumnValue).value, x.translatedColumnValue)
  {
    match TryParseInt(x.pkColumnValue)
    case None => None
    case Some(code) => Some(CodeItem(code, x.translatedColumnValue))
  }

  /** The code items of a group: the translations whose key parses, in order. */
  function ParsedItems(group: seq<TranslatedText>): (r: seq<CodeItem>)
    ensures |r| <= |group|
  {
    if group == [] then []
    else
      var n := |group| - 1;
      ParsedItems(group[..n]) + (if ItemOf(group[n]).Some? then [ItemOf(group[n]).value] else [])
  }

  /** Whether a translation's key parses as a code. */
  predicate Parses(x: TranslatedText)
  {
    ItemOf(x).Some?
  }

  /** The code items of translations whose keys all parse, one per translation, in order. */
  function ItemValues(xs: seq<TranslatedText>): (r: seq<CodeItem>)
    requires forall x :: x in xs ==> Parses(x)
    ensures |r| == |xs|
  {
    if xs == [] then []
    else
      var n := |xs| - 1;
      assert forall x :: x in xs[..n] ==> x in xs;
      assert xs[n] in xs && Parses(xs[n]);
      ItemValues(xs[..n]) + [ItemOf(xs[n]).value]
  }

  /** One more translation is one more code item when its key parses, and nothing otherwise. */
  lemma ItemValuesSnoc(xs: seq<TranslatedText>, y: TranslatedText)
    requires forall x :: x in xs ==> Parses(x)
    ensures var ys := xs + (if Parses(y) then [y] else []);
      (forall x :: x in ys ==> Parses(x)) &&
      ItemValues(ys) == ItemValues(xs) + (if Parses(y) then [ItemOf(y).value] else [])
  {
    if Parses(y) {
      assert (xs + [y])[..|xs|] == xs;
    } else {
      assert xs + [] == xs;
    }
  }

  /**
   * `ParsedItems` keeps the group's order: its items are, one for one, the translations
   * whose key parses, in the order they come in the group.
   */
  lemma {:induction false} ParsedItemsInOrder(group: seq<TranslatedText>)
    ensures var kept := Where(group, Parses);
      (forall x :: x in kept ==> Parses(x)) && ParsedItems(group) == ItemValues(kept)
  {
    if group != [] {
      var n := |group| - 1;
      var y := group[n];
      ParsedItemsInOrder(group[..n]);
      assert group[..n] + [y] == group;
      WhereSnoc(group[..n], y, Parses);
      ItemValuesSnoc(Where(group[..n], Parses), y);
    }
  }

  /** Every code item comes from a translation of the group whose key parses to its code. */
  lemma {:induction false} ParsedItemsSound(group: seq<TranslatedText>, item: CodeItem)
    requires item in ParsedItems(group)
    ensures exists x :: x in group && ItemOf(x) == Some(item)
  {
    var n := |group| - 1;
    if item in ParsedItems(group[..n]) {
      ParsedItemsSound(group[..n], item);
      var x :| x in group[..n] && ItemOf(x) == Some(item);
      assert x in group;
    } else {
      assert ItemOf(group[n]) == Some(item);
    }
  }

  /** Every translation of the group whose key parses yields a code item. */
  lemma {:induction false} ParsedItemsComplete(group: seq<TranslatedText>, x: TranslatedText)
    requires x in group && ItemOf(x).Some?
    ensures ItemOf(x).value in ParsedItems(group)
  {
    var n := |group| - 1;
    if x != group[n] {
      assert group == group[..n] + [group[n]];
      assert x in group[..n];
      ParsedItemsComplete(group[..n], x);
    }
  }

  /** What `GetTranslatedText(language, languageVariant)` returns. */
  function TranslatedTextSpec(rows: seq<TranslatedText>, language: Option<string>, variant: Option<string>)
    : seq<CorporateCode>
  {
    GroupCodes(GroupBy(Translations(rows, language, variant)))
  }

  /** One corporate code per group, in the groups' order. */
  function GroupCodes(groups: seq<Grouping>): (r: seq<CorporateCode>)
    ensures |r| == |groups| && forall i :: 0 <= i < |groups| ==> r[i] == CodeOfGroup(groups[i])
  {
    seq(|groups|, i requires 0 <= i < |groups| => CodeOfGroup(groups[i]))
  }

  /** The corporate code of one table's group: its parsed items under the table name. */
  function CodeOfGroup(g: Grouping): CorporateCode
  {
    CorporateCode(g.key, ParsedItems(g.elements))
  }

  /** The table names of a list of corporate codes, in order. */
  function CodesOf(r: seq<CorporateCode>): (names: seq<Option<string>>)
    ensures |names| == |r| && forall i :: 0 <= i < |r| ==> names[i] == r[i].corporateCode
  {
    seq(|r|, i requires 0 <= i < |r| => r[i].corporateCode)
  }

  /** The `TryParse` loop over one group: the code items of the translations whose key parses, in order. */
  method ParseGroup(group: seq<TranslatedText>) returns (codes: seq<CodeItem>)
    ensures codes == ParsedItems(group)
  {
    codes := [];
    for j := 0 to |group|
      invariant codes == ParsedItems(group[..j])
    {
      assert group[..j + 1][..j] == group[..j];
      var code := TryParseInt(group[j].pkColumnValue);
      if code.Some? {
        codes := codes + [CodeItem(code.value, group[j].translatedColumnValue)];
      }
    }
    assert group[..|group|] == group;
  }

  /**
   * `GetTranslatedText(language, languageVariant)`: the translations in the language (and
   * variant, when given) are grouped by table; each group becomes one corporate code whose
   * items are the translations whose key parses as an integer.
   */
  method GetTranslatedText(rows: seq<TranslatedText>, language: Option<string>, variant: Option<string>)
    returns (result: seq<CorporateCode>)
    ensures result == TranslatedTextSpec(rows, language, variant)
  {
    var groups := GroupBy(Translations(rows, language, variant));
    result := BuildGroupCodes(groups);
  }

  /** The loop of `GetTranslatedText`: each group in turn becomes its corporate code. */
  method BuildGroupCodes(groups: seq<Grouping>) returns (result: seq<CorporateCode>)
    ensures result == GroupCodes(groups)
  {
    result := [];
    for i := 0 to |groups|
      invariant result == GroupCodes(groups)[..i]
    {
      var codes := ParseGroup(groups[i].elements);
      result := result + [CorporateCode(groups[i].key, codes)];
    }
    assert GroupCodes(groups)[..|groups|] == GroupCodes(groups);
  }

  /**
   * The result has one corporate code per table name among the translations in the
   * language, with no table twice.
   */
  lemma TranslatedTablesDistinct(rows: seq<TranslatedText>, language: Option<string>, variant: Option<string>)
    ensures var names := CodesOf(TranslatedTextSpec(rows, language, variant));
      (forall i, j :: 0 <= i < j < |names| ==> names[i] != names[j]) &&
      (forall i, j :: 0 <= i < j < |names| ==>
         FirstPos(Translations(rows, language, variant), names[i]) < FirstPos(Translations(rows, language, variant), names[j])) &&
      (forall t :: t in names <==> exists x :: x in rows && InLanguage(x, language, variant) && x.tableName == t)
  {
    var items := Translations(rows, language, variant);
    assert CodesOf(TranslatedTextSpec(rows, language, variant)) == TableNames(items);
    TableNamesFirstAppearance(items);
  }

  /**
   * Soundness: every code item of the corporate code of table t comes from a translation
   * of table t in the language whose key parses to that code, and carries its text.
   */
  lemma TranslatedItemsSound(rows: seq<TranslatedText>, language: Option<string>, variant: Option<string>,
                             i: int, item: CodeItem)
    requires 0 <= i < |TranslatedTextSpec(rows, language, variant)|
    requires item in TranslatedTextSpec(rows, language, variant)[i].items
    ensures var t := TranslatedTextSpec(rows, language, variant)[i].corporateCode;
      exists x :: x in rows && InLanguage(x, language, variant) && x.tableName == t &&
                  TryParseInt(x.pkColumnValue) == Some(item.code) && x.translatedColumnValue == item.value
  {
    var items := Translations(rows, language, variant);
    var g := GroupBy(items)[i];
    ParsedItemsSound(g.elements, item);
    var x :| x in g.elements && ItemOf(x) == Some(item);
    assert x in items && x.tableName == g.key;
  }

  /**
   * Completeness: every translation in the language whose key parses yields its code item
   * in the corporate code of its table.
   */
  lemma TranslatedItemsComplete(rows: seq<TranslatedText>, language: Option<string>, variant: Option<string>,
                                x: TranslatedText)
    requires x in rows && InLanguage(x, language, variant) && TryParseInt(x.pkColumnValue).Some?
    ensures var r := TranslatedTextSpec(rows, language, variant);
      exists i :: 0 <= i < |r| && r[i].corporateCode == x.tableName &&
        CodeItem(TryParseInt(x.pkColumnValue).value, x.translatedColumnValue) in r[i].items
  {
    var items := Translations(rows, language, variant);
    assert x in items;
    var keys := TableNames(items);
    assert x.tableName in keys;
    var i :| 0 <= i < |keys| && keys[i] == x.tableName;
    var g := GroupBy(items)[i];
    assert g.key == x.tableName;
    assert x in g.elements;
    ParsedItemsComplete(g.elements, x);
    assert TranslatedTextSpec(rows, language, variant)[i] == CorporateCode(g.key, ParsedItems(g.elements));
  }

  /** The number of code items of a list of corporate codes. */
  function TotalItems(r: seq<CorporateCode>): nat
  {
    if r == [] then 0 else |r[0].items| + TotalItems(r[1..])
  }

  /** The number of translations of the listed tables, table by table. */
  function GroupSizes(items: seq<TranslatedText>, keys: seq<Option<string>>): nat
  {
    if keys == [] then 0 else |OfTable(items, keys[0])| + GroupSizes(items, keys[1..])
  }

  /** How many times a table name is listed. */
  function Occurrences(keys: seq<Option<string>>, t: Option<string>): nat
  {
    if keys == [] then 0 else (if keys[0] == t then 1 else 0) + Occurrences(keys[1..], t)
  }

  /** No translation, no group members. */
  lemma {:induction false} GroupSizesEmpty(keys: seq<Option<string>>)
    ensures GroupSizes([], keys) == 0
  {
    if keys != [] {
      GroupSizesEmpty(keys[1..]);
    }
  }

  /** One more translation adds one to the group of every listing of its table. */
  lemma {:induction false} GroupSizesCons(y: TranslatedText, rest: seq<TranslatedText>, keys: seq<Option<string>>)
    ensures GroupSizes([y] + rest, keys) == GroupSizes(rest, keys) + Occurrences(keys, y.tableName)
  {
    if keys != [] {
      var items := [y] + rest;
      assert items[0] == y && items[1..] == rest;
      assert |OfTable(items, keys[0])| == |OfTable(rest, keys[0])| + (if y.tableName == keys[0] then 1 else 0);
      GroupSizesCons(y, rest, keys[1..]);
    }
  }

  /** A table listed among distinct names is listed once. */
  lemma {:induction false} OccurrencesDistinct(keys: seq<Option<string>>, t: Option<string>)
    requires forall i, j :: 0 <= i < j < |keys| ==> keys[i] != keys[j]
    ensures Occurrences(keys, t) == if t in keys then 1 else 0
  {
    if keys != [] {
      OccurrencesDistinct(keys[1..], t);
      if keys[0] == t {
        assert t !in keys[1..] by {
          forall j | 0 <= j < |keys[1..]| ensures keys[1..][j] != t {
            assert keys[1..][j] == keys[j + 1];
          }
        }
      }
    }
  }

  /**
   * Grouping by a list of distinct names covering every translation's table puts each
   * translation in exactly one group.
   */
  lemma {:induction false} GroupSizesTotal(items: seq<TranslatedText>, keys: seq<Option<string>>)
    requires forall i, j :: 0 <= i < j < |keys| ==> keys[i] != keys[j]
    requires forall x :: x in items ==> x.tableName in keys
    ensures GroupSizes(items, keys) == |items|
  {
    if items == [] {
      GroupSizesEmpty(keys);
    } else {
      assert items == [items[0]] + items[1..];
      GroupSizesTotal(items[1..], keys);
      GroupSizesCons(items[0], items[1..], keys);
      OccurrencesDistinct(keys, items[0].tableName);
    }
  }

  /** From group j on, the corporate codes hold no more items than their groups hold translations. */
  lemma {:induction false} TotalItemsFrom(items: seq<TranslatedText>, r: seq<CorporateCode>, keys: seq<Option<string>>, j: nat)
    requires |r| == |keys| && j <= |r|
    requires forall i :: 0 <= i < |r| ==> r[i].items == ParsedItems(OfTable(items, keys[i]))
    ensures TotalItems(r[j..]) <= GroupSizes(items, keys[j..])
    decreases |r| - j
  {
    if j < |r| {
      TotalItemsFrom(items, r, keys, j + 1);
      assert r[j..][0] == r[j] && r[j..][1..] == r[j + 1..];
      assert keys[j..][0] == keys[j] && keys[j..][1..] == keys[j + 1..];
    } else {
      assert r[j..] == [] && keys[j..] == [];
    }
  }

  /** The result holds at most as many code items as there are translations in the language. */
  lemma TranslatedItemsBound(rows: seq<TranslatedText>, language: Option<string>, variant: Option<string>)
    ensures TotalItems(TranslatedTextSpec(rows, language, variant)) <= |Translations(rows, language, variant)|
  {
    var items := Translations(rows, language, variant);
    var keys := TableNames(items);
    var r := TranslatedTextSpec(rows, language, variant);
    TotalItemsFrom(items, r, keys, 0);
    assert r[0..] == r && keys[0..] == keys;
    GroupSizesTotal(items, keys);
  }
}
