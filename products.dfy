/** The batch mode `_automate_products`: every product of the product list becomes
    one conversion per vertical level, each writing its own output file whose name
    is derived from the input file, the variable and the level. */
module Products {

  import opened Wrappers
  import Python
  import Converter

  type ZLevel = Converter.ZLevel

  /** One entry of the product list. `variables` maps a file type to the variable's
      name in files of that type (`product[file_type]['variable']`); the range and the
      contour interval are in tenths; `zLevels` is the `z_levels` key if present. */
  datatype Product = Product(
    variables: map<string, string>,
    min10: int,
    max10: int,
    interval10: int,
    palette: string,
    zLevels: Option<seq<ZLevel>>)

  /** One planned conversion: the converter's arguments and its output file. */
  datatype Task = Task(settings: Converter.Settings, outFile: string)

  const Suffix: string := ".geojson.gz"

  /** The output file name of one conversion: `{wrf_file}_{variable}`, then
      `_{z_level}` when there is a level, then `.geojson.gz`. */
  function OutFileName(wrfFile: string, variable: string, zLevel: ZLevel): (name: string)
    ensures |name| >= |wrfFile + "_" + variable| + |Suffix|
    ensures name[..|wrfFile + "_" + variable|] == wrfFile + "_" + variable
    ensures name[|name| - |Suffix|..] == Suffix
  {
    var stem := wrfFile + "_" + variable;
    (if zLevel.None? then stem else stem + "_" + Python.IntText(zLevel.value)) + Suffix
  }

  /** Reads the level back out of an output file name of the given input file and
      variable: `Some(None)` for a name without a level, `Some(Some(z))` for level z,
      `None` for a name that is neither. */
  function LevelOfName(wrfFile: string, variable: string, name: string): Option<ZLevel>
  {
    var stem := wrfFile + "_" + variable;
    if |name| < |stem| + |Suffix| || name[..|stem|] != stem || name[|name| - |Suffix|..] != Suffix then None
    else
      var middle := name[|stem|..|name| - |Suffix|];
      if middle == "" then Some(None)
      else if middle[0] == '_' && Python.ParseInt(middle[1..]).Some? then Some(Some(Python.ParseInt(middle[1..]).value))
      else None
  }

  /** The level can always be read back from the output file name. */
  lemma OutFileNameRoundTrip(wrfFile: string, variable: string, zLevel: ZLevel)
    ensures LevelOfName(wrfFile, variable, OutFileName(wrfFile, variable, zLevel)) == Some(zLevel)
  {
    var stem := wrfFile + "_" + variable;
    var tag := if zLevel.None? then "" else "_" + Python.IntText(zLevel.value);
    assert OutFileName(wrfFile, variable, zLevel) == stem + tag + Suffix;
    NameParts(stem, tag);
    if zLevel.Some? {
      Python.IntTextRoundTrip(zLevel.value);
      assert tag[0] == '_' && tag[1..] == Python.IntText(zLevel.value);
    }
  }

  /** The stem, the level tag and the suffix can be cut back out of a name. */
  lemma NameParts(stem: string, tag: string)
    ensures var name := stem + tag + Suffix;
      && |name| >= |stem| + |Suffix|
      && name[..|stem|] == stem
      && name[|name| - |Suffix|..] == Suffix
      && name[|stem|..|name| - |Suffix|] == tag
  {
  }

  /** Different levels of one variable never share an output file. */
  lemma OutFileNamesDistinct(wrfFile: string, variable: string, z1: ZLevel, z2: ZLevel)
    requires z1 != z2
    ensures OutFileName(wrfFile, variable, z1) != OutFileName(wrfFile, variable, z2)
  {
    OutFileNameRoundTrip(wrfFile, variable, z1);
    OutFileNameRoundTrip(wrfFile, variable, z2);
  }

  /** `product['z_levels'] if 'z_levels' in product else [None]`: the listed levels,
      or the one level `None` when the product lists none. */
  function ZLevelsOf(p: Product): (zs: seq<ZLevel>)
    ensures p.zLevels.None? ==> zs == [None]
    ensures p.zLevels.Some? ==> zs == p.zLevels.value
    ensures |zs| > 0 || p.zLevels == Some([])
  {
    if p.zLevels.Some? then p.zLevels.value else [None]
  }

  /** The conversion the source submits for product `p` at level `z`: a converter for
      the product's variable in files of this type, at level z, writing a
      `.geojson.gz` file (`TaskForLevel` reads the level back from its name). */
  function TaskFor(wrfFile: string, fileType: string, p: Product, z: ZLevel): (t: Task)
    requires fileType in p.variables
    ensures t.settings == Converter.Settings(wrfFile, fileType, p.variables[fileType], p.min10, p.max10,
                                             p.interval10, p.palette, z)
    ensures |t.outFile| >= |Suffix| && t.outFile[|t.outFile| - |Suffix|..] == Suffix
  {
    var variable := p.variables[fileType];
    Task(Converter.Settings(wrfFile, fileType, variable, p.min10, p.max10, p.interval10, p.palette, z),
         OutFileName(wrfFile, variable, z))
  }

  /** The level of a planned conversion can be read back from its output file name. */
  lemma TaskForLevel(wrfFile: string, fileType: string, p: Product, z: ZLevel)
    requires fileType in p.variables
    ensures LevelOfName(wrfFile, p.variables[fileType], TaskFor(wrfFile, fileType, p, z).outFile) == Some(z)
  {
    OutFileNameRoundTrip(wrfFile, p.variables[fileType], z);
  }

  /** The conversions of one product, one per level in the order of its level list. */
  function ProductTasks(wrfFile: string, fileType: string, p: Product): (tasks: seq<Task>)
    requires fileType in p.variables
    ensures |tasks| == |ZLevelsOf(p)|
  {
    var zs := ZLevelsOf(p);
    seq(|zs|, k requires 0 <= k < |zs| => TaskFor(wrfFile, fileType, p, zs[k]))
  }

  predicate AllHaveType(fileType: string, products: seq<Product>)
  {
    forall i :: 0 <= i < |products| ==> fileType in products[i].variables
  }

  /** All conversions of a product list, product by product. */
  function AllTasks(wrfFile: string, fileType: string, products: seq<Product>): seq<Task>
    requires AllHaveType(fileType, products)
  {
    if |products| == 0 then []
    else
      AllTasks(wrfFile, fileType, products[..|products| - 1])
      + ProductTasks(wrfFile, fileType, products[|products| - 1])
  }

  /** How many levels the products have between them. */
  function LevelCount(products: seq<Product>): nat
  {
    if |products| == 0 then 0
    else LevelCount(products[..|products| - 1]) + |ZLevelsOf(products[|products| - 1])|
  }

  /** The position of the first product with no entry for the file type (looking it
      up raises KeyError), or the number of products if there is none. */
  function FirstMissing(fileType: string, products: seq<Product>): (n: nat)
    ensures n <= |products|
    ensures AllHaveType(fileType, products[..n])
    ensures n < |products| ==> fileType !in products[n].variables
  {
    if |products| == 0 then 0
    else if fileType !in products[0].variables then 0
    else
      var n := 1 + FirstMissing(fileType, products[1..]);
      assert forall i :: 1 <= i < n ==> products[..n][i] == products[1..][..n - 1][i - 1];
      n
  }

  /** The planning loop of `_automate_products`: for each product look up its variable
      for the file type, then for each of its levels derive the output file name and
      plan one conversion. A product without an entry for the file type stops the loop
      with a KeyError (`missing`), after the conversions planned until then. */
  method PlanProducts(wrfFile: string, fileType: string, products: seq<Product>)
    returns (tasks: seq<Task>, missing: Option<nat>)
    ensures var n := FirstMissing(fileType, products);
      && missing == (if n < |products| then Some(n) else None)
      && tasks == AllTasks(wrfFile, fileType, products[..n])
  {
    tasks, missing := [], None;
    for i := 0 to |products|
      invariant AllHaveType(fileType, products[..i])
      invariant tasks == AllTasks(wrfFile, fileType, products[..i])
      invariant FirstMissing(fileType, products) >= i
    {
      var product := products[i];
      if fileType !in product.variables {
        FirstMissingAt(fileType, products, i);
        return tasks, Some(i);
      }
      var variable := product.variables[fileType];
      var zLevels := if product.zLevels.Some? then product.zLevels.value else [None];
      ghost var before := tasks;
      for k := 0 to |zLevels|
        invariant tasks == before + ProductTasks(wrfFile, fileType, product)[..k]
      {
        var outFile := OutFileName(wrfFile, variable, zLevels[k]);
        var converter := Converter.Settings(wrfFile, fileType, variable, product.min10, product.max10,
                                            product.interval10, product.palette, zLevels[k]);
        var task := Task(converter, outFile);
        LevelStep(wrfFile, fileType, product, k);
        tasks := tasks + [task];
      }
      assert ProductTasks(wrfFile, fileType, product)[..|zLevels|] == ProductTasks(wrfFile, fileType, product);
      ProductStep(wrfFile, fileType, products, i);
      FirstMissingPast(fileType, products, i);
    }
    assert products[..|products|] == products;
    FirstMissingNone(fileType, products);
  }

  /** One turn of the inner loop: the conversion for level k follows those of the
      levels before it. */
  lemma LevelStep(wrfFile: string, fileType: string, p: Product, k: nat)
    requires fileType in p.variables && k < |ZLevelsOf(p)|
    ensures ProductTasks(wrfFile, fileType, p)[..k + 1]
         == ProductTasks(wrfFile, fileType, p)[..k] + [TaskFor(wrfFile, fileType, p, ZLevelsOf(p)[k])]
  {
  }

  /** One turn of the outer loop: the conversions of product i follow those of the
      products before it. */
  lemma ProductStep(wrfFile: string, fileType: string, products: seq<Product>, i: nat)
    requires i < |products| && AllHaveType(fileType, products[..i]) && fileType in products[i].variables
    ensures AllHaveType(fileType, products[..i + 1])
    ensures AllTasks(wrfFile, fileType, products[..i + 1])
         == AllTasks(wrfFile, fileType, products[..i]) + ProductTasks(wrfFile, fileType, products[i])
  {
    assert products[..i + 1][..i] == products[..i];
    assert forall j :: 0 <= j < i ==> products[..i + 1][j] == products[..i][j];
  }

  lemma FirstMissingAt(fileType: string, products: seq<Product>, i: nat)
    requires i < |products| && AllHaveType(fileType, products[..i]) && fileType !in products[i].variables
    ensures FirstMissing(fileType, products) == i
  {
    var n := FirstMissing(fileType, products);
    assert forall j :: 0 <= j < i ==> products[..i][j] == products[j];
    assert forall j :: 0 <= j < n ==> products[..n][j] == products[j];
  }

  lemma FirstMissingPast(fileType: string, products: seq<Product>, i: nat)
    requires i < |products| && FirstMissing(fileType, products) >= i && fileType in products[i].variables
    ensures FirstMissing(fileType, products) >= i + 1
  {
  }

  lemma FirstMissingNone(fileType: string, products: seq<Product>)
    requires AllHaveType(fileType, products)
    ensures FirstMissing(fileType, products) == |products|
  {
  }

  // ---------------------------------------------------------------------------
  // What the plan contains
  // ---------------------------------------------------------------------------

  /** One conversion per (product, level): the plan is as long as the products have
      levels between them. */
  lemma {:induction false} TaskCount(wrfFile: string, fileType: string, products: seq<Product>)
    requires AllHaveType(fileType, products)
    ensures |AllTasks(wrfFile, fileType, products)| == LevelCount(products)
  {
    if |products| > 0 {
      var prefix := products[..|products| - 1];
      assert AllHaveType(fileType, prefix) by {
        assert forall j :: 0 <= j < |prefix| ==> prefix[j] == products[j];
      }
      TaskCount(wrfFile, fileType, prefix);
    }
  }

  /** The conversion for level k of product i sits right after those of the products
      before it: product order first, level order within a product. */
  lemma {:induction false} TaskOrder(wrfFile: string, fileType: string, products: seq<Product>, i: nat, k: nat)
    requires AllHaveType(fileType, products)
    requires i < |products| && k < |ZLevelsOf(products[i])|
    ensures LevelCount(products[..i]) + k < |AllTasks(wrfFile, fileType, products)|
    ensures AllTasks(wrfFile, fileType, products)[LevelCount(products[..i]) + k]
         == TaskFor(wrfFile, fileType, products[i], ZLevelsOf(products[i])[k])
  {
    PlanSnoc(wrfFile, fileType, products, i);
    var front := AllTasks(wrfFile, fileType, products[..i]);
    var last := ProductTasks(wrfFile, fileType, products[i]);
    var j := LevelCount(products[..i]) + k;
    AppendRight(front, last, k, j);
    PlanPrefixAt(wrfFile, fileType, products, i + 1, j);
    ProductTaskAt(wrfFile, fileType, products[i], k);
  }

  /** Planning one more product appends that product's conversions. */
  lemma PlanSnoc(wrfFile: string, fileType: string, products: seq<Product>, i: nat)
    requires AllHaveType(fileType, products) && i < |products|
    ensures AllHaveType(fileType, products[..i]) && AllHaveType(fileType, products[..i + 1])
    ensures AllTasks(wrfFile, fileType, products[..i + 1])
         == AllTasks(wrfFile, fileType, products[..i]) + ProductTasks(wrfFile, fileType, products[i])
    ensures |AllTasks(wrfFile, fileType, products[..i])| == LevelCount(products[..i])
  {
    assert forall j :: 0 <= j < i + 1 ==> products[..i + 1][j] == products[j];
    PrefixOfPrefix(products, i + 1, i);
    AllTasksLast(wrfFile, fileType, products[..i + 1]);
  }

  /** The conversions planned for the first m products come first in the whole plan:
      each keeps its position. */
  lemma {:induction false} PlanPrefixAt(wrfFile: string, fileType: string, products: seq<Product>, m: nat, j: nat)
    requires AllHaveType(fileType, products) && m <= |products|
    requires AllHaveType(fileType, products[..m]) && j < |AllTasks(wrfFile, fileType, products[..m])|
    ensures j < |AllTasks(wrfFile, fileType, products)|
    ensures AllTasks(wrfFile, fileType, products)[j] == AllTasks(wrfFile, fileType, products[..m])[j]
    decreases |products| - m
  {
    if m == |products| {
      assert products[..m] == products;
    } else {
      PlanSnoc(wrfFile, fileType, products, m);
      AppendLeft(AllTasks(wrfFile, fileType, products[..m]), ProductTasks(wrfFile, fileType, products[m]), j);
      PlanPrefixAt(wrfFile, fileType, products, m + 1, j);
    }
  }

  lemma AppendLeft(a: seq<Task>, d: seq<Task>, j: nat)
    requires j < |a|
    ensures j < |a + d| && (a + d)[j] == a[j]
  {
  }

  lemma AppendRight(a: seq<Task>, d: seq<Task>, k: nat, j: nat)
    requires k < |d| && j == |a| + k
    ensures j < |a + d| && (a + d)[j] == d[k]
  {
  }

  /** The plan of a non-empty product list: the plan of all but the last product,
      then the last product's conversions. */
  lemma AllTasksLast(wrfFile: string, fileType: string, products: seq<Product>)
    requires AllHaveType(fileType, products) && |products| > 0
    ensures AllHaveType(fileType, products[..|products| - 1])
    ensures AllTasks(wrfFile, fileType, products)
         == AllTasks(wrfFile, fileType, products[..|products| - 1])
          + ProductTasks(wrfFile, fileType, products[|products| - 1])
    ensures |AllTasks(wrfFile, fileType, products[..|products| - 1])| == LevelCount(products[..|products| - 1])
  {
    var prefix := products[..|products| - 1];
    assert forall j :: 0 <= j < |prefix| ==> prefix[j] == products[j];
    TaskCount(wrfFile, fileType, prefix);
  }

  /** Cutting a prefix short keeps the same elements. */
  lemma PrefixOfPrefix(products: seq<Product>, n: nat, i: nat)
    requires i < n <= |products|
    ensures products[..n][i] == products[i]
    ensures products[..n][..i] == products[..i]
  {
  }

  lemma ProductTaskAt(wrfFile: string, fileType: string, p: Product, k: nat)
    requires fileType in p.variables && k < |ZLevelsOf(p)|
    ensures ProductTasks(wrfFile, fileType, p)[k] == TaskFor(wrfFile, fileType, p, ZLevelsOf(p)[k])
  {
  }

  /** A product without a level list yields exactly one conversion, of the 2-D field,
      written to `{wrf_file}_{variable}.geojson.gz`. */
  lemma DefaultLevel(wrfFile: string, fileType: string, p: Product)
    requires fileType in p.variables && p.zLevels.None?
    ensures var tasks := ProductTasks(wrfFile, fileType, p);
      && |tasks| == 1
      && tasks[0].settings.zLevel.None?
      && tasks[0].outFile == wrfFile + "_" + p.variables[fileType] + Suffix
  {
  }

  /** Every planned conversion writes a `.geojson.gz` file named after the input file
      and its variable, and the conversions of one product write distinct files when
      its levels are distinct. */
  lemma ProductOutFiles(wrfFile: string, fileType: string, p: Product, a: nat, b: nat)
    requires fileType in p.variables
    requires a < |ZLevelsOf(p)| && b < |ZLevelsOf(p)| && ZLevelsOf(p)[a] != ZLevelsOf(p)[b]
    ensures var tasks := ProductTasks(wrfFile, fileType, p);
      && tasks[a].outFile[|tasks[a].outFile| - |Suffix|..] == Suffix
      && tasks[a].outFile != tasks[b].outFile
  {
    OutFileNamesDistinct(wrfFile, p.variables[fileType], ZLevelsOf(p)[a], ZLevelsOf(p)[b]);
  }
}
