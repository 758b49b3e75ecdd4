/** The two model names the service answers to (graphrag/app/settings.py).
    The rest of the settings file reads the environment and the file system
    and is not part of this model. */
module Settings {

  const ModelNameGlobalSearch: string := "GraphRAG_DSAJ_Global_Search:20240729"
  const ModelNameLocalSearch: string := "GraphRAG_DSAJ_Local_Search:20240729"
}
