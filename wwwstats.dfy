/**
 * The wwwstats module: the same configuration and counting code as
 * socketstats under its own block name and its own copy of the globals.
 */
module WwwStats {
  import opened Wrappers
  import opened StatsCommon

  const MyConf := "wwwstats"

  /** The module's globals as they stand before any configuration is read. */
  method NewConfig() returns (c: StatsConfig)
    ensures fresh(c) && c.blockName == MyConf && c.socketPath == None && !c.socketHpath
    ensures c.selectedNicks.Length == 0 && c.numNicks == 0 && c.counter == 0
  {
    c := new StatsConfig(MyConf);
  }
}
