/**
 * `createDataset`: turns a dataset configuration object into an object that
 * maps each property name to its configured `key`, consuming the
 * configuration as it goes.
 */
module Dataset {
  import opened Records

  /** `DatasetFieldConfig`: the output key and the declared type of one field. */
  datatype FieldConfig = FieldConfig(key: string, required: bool, fieldType: string)

  /** The configuration object handed to `createDataset`, which deletes its properties. */
  class DatasetConfig {
    var fields: Record<FieldConfig>

    constructor (fields: Record<FieldConfig>)
      ensures this.fields == fields
    {
      this.fields := fields;
    }
  }

  /**
   * After visiting the first `i` keys of `config`: `rest` holds the keys still
   * to visit with their configurations, `data` the visited ones with their
   * `key`s, both in enumeration order.
   */
  ghost predicate VisitedPrefix(config: Record<FieldConfig>, rest: Record<FieldConfig>, data: Record<string>, i: nat)
  {
    && config.Valid() && i <= |config.keys|
    && rest.Valid() && rest.keys == config.keys[i..]
    && (forall k :: k in rest.values ==> k in config.values && rest.values[k] == config.values[k])
    && data.Valid() && data.keys == config.keys[..i]
    && (forall k :: k in data.values ==> k in config.values && data.values[k] == config.values[k].key)
  }

  /** Visiting one more key: copy its `key` into `data`, delete it from `rest`. */
  lemma VisitNext(config: Record<FieldConfig>, rest: Record<FieldConfig>, data: Record<string>, i: nat)
    requires VisitedPrefix(config, rest, data, i) && i < |config.keys|
    ensures var key := config.keys[i];
      VisitedPrefix(config, Delete(rest, key), Assign(data, key, rest.values[key].key), i + 1)
  {
    var key := config.keys[i];
    assert key == rest.keys[0];
    DeleteFirst(rest);
    assert rest.keys[1..] == config.keys[i + 1..];
    assert key !in config.keys[..i];
    assert key !in data.values;
    assert Assign(data, key, rest.values[key].key).keys == data.keys + [key];
    assert config.keys[..i + 1] == config.keys[..i] + [key];
  }

  /**
   * Visits the properties in enumeration order; each one becomes a property of
   * the result holding its `key`, and is deleted from the configuration.
   */
  method CreateDataset(dataset: DatasetConfig) returns (data: Record<string>)
    requires dataset.fields.Valid()
    modifies dataset
    ensures data.Valid()
    // Exactly the configuration's property names, in its order: nothing else
    // (no `$type`) is created.
    ensures data.keys == old(dataset.fields.keys)
    ensures forall k :: k in data.values ==> data.values[k] == old(dataset.fields.values[k].key)
    ensures "$type" !in old(dataset.fields.values) ==> "$type" !in data.values
    // The configuration has been emptied.
    ensures dataset.fields == Empty()
  {
    ghost var config := dataset.fields;
    var keys := dataset.fields.keys;
    var rest := dataset.fields;
    data := Empty();
    var i := 0;
    while i < |keys|
      invariant i <= |keys| && dataset.fields == rest
      invariant VisitedPrefix(config, rest, data, i)
    {
      var key := keys[i];
      VisitNext(config, rest, data, i);
      data := Assign(data, key, rest.values[key].key);
      rest := Delete(rest, key);
      dataset.fields := rest;
      i := i + 1;
    }
    assert keys[..i] == keys;
    assert rest.values == map[];
  }
}
